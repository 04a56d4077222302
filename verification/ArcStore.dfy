/** Strong stores. Any live value may be stored into any live object. Overwriting the owner slot of an embedded
    object destroys it, which is safe exactly if nothing that dies with it still aliases it. */
module ArcStore {
  import opened Arc
  import opened ArcInvariant
  import opened ArcLog
  import opened ArcFate

  // ---------------------------------------------------------------- retain and store keep the counts

  lemma RetainKeeps(sh: Shapes, h: Heap, o: Addr, ext: multiset<Addr>)
    requires Inv(sh, h, ext, {})
    ensures IsLive(h, o) && sh[o].kind.Ordinary? ==> Inv(sh, Retain(sh, h, o), ext + multiset{o}, {})
    ensures IsLive(h, o) && !sh[o].kind.Ordinary? ==> Retain(sh, h, o) == h
  {
    if IsLive(h, o) && sh[o].kind.Ordinary? {
      var h1, ext1 := Retain(sh, h, o), ext + multiset{o};
      RefsOfCell(h, o, h1.cells[o]);
      SameSlotsKeep(sh, h, h1);
      SameOwnersKeep(sh, h, h1, {}, {});
      assert CountsOk(sh, h1, ext1, {}) by {
        forall x | 0 <= x < |sh| ensures Counted(sh, h1, ext1, {}, x) {
          assert Counted(sh, h, ext, {}, x);
        }
      }
    } else if IsLive(h, o) {
      assert Owned(sh, h, {}, o);
    }
  }

  /** The references to `x` outside the heap, one more if `x` is counted. */
  ghost function With(sh: Shapes, ext: multiset<Addr>, x: Addr): multiset<Addr> {
    if x < |sh| && sh[x].kind.Ordinary? && x != NIL then ext + multiset{x} else ext
  }

  /** The new value after its retain. */
  ghost function Retained(sh: Shapes, h: Heap, v: Addr): (r: Heap)
    requires |sh| == |h.cells|
    ensures SameLives(h, r)
  {
    if v == NIL then h else Retain(sh, h, v)
  }

  lemma {:induction false} RetainedKeeps(sh: Shapes, h: Heap, v: Addr, ext: multiset<Addr>)
    requires Inv(sh, h, ext, {}) && (v == NIL || IsLive(h, v))
    ensures Inv(sh, Retained(sh, h, v), With(sh, ext, v), {})
  {
    if v != NIL {
      RetainKeeps(sh, h, v, ext);
    }
  }

  /** Writing a live value into a nil slot spends the reference that was taken for it. */
  lemma FillKeeps(sh: Shapes, h: Heap, p: Addr, i: nat, v: Addr, ext: multiset<Addr>, dying: set<Addr>)
    requires p < |sh| == |h.cells| && i < |h.cells[p].slots| && h.cells[p].slots[i] == NIL && h.cells[p].live
    requires IsLive(h, v) && Inv(sh, h, With(sh, ext, v), dying)
    ensures Inv(sh, SetSlot(h, p, i, v), ext, dying)
  {
    var h1 := SetSlot(h, p, i, v);
    assert CountsOk(sh, h1, ext, dying) by {
      RefsOfSlotChange(h, p, i, v);
      forall x | 0 <= x < |sh| ensures Counted(sh, h1, ext, dying, x) {
        assert Counted(sh, h, With(sh, ext, v), dying, x);
      }
    }
    assert OwnersOk(sh, h1, dying) by { FillKeepsOwners(sh, h, p, i, v, dying); }
    assert SlotsOk(sh, h1) by { FillKeepsSlots(sh, h, p, i, v); }
    forall x | x in ext ensures x in With(sh, ext, v) {}
    assert HandlesOk(sh, h1, ext, dying);
  }

  lemma FillKeepsOwners(sh: Shapes, h: Heap, p: Addr, i: nat, v: Addr, dying: set<Addr>)
    requires p < |sh| == |h.cells| && i < |h.cells[p].slots| && h.cells[p].slots[i] == NIL && OwnersOk(sh, h, dying)
    requires IsLive(h, v)
    ensures OwnersOk(sh, SetSlot(h, p, i, v), dying)
  {
    forall x | 0 <= x < |sh| ensures Owned(sh, SetSlot(h, p, i, v), dying, x) {
      assert Owned(sh, h, dying, x);
    }
  }

  lemma FillKeepsSlots(sh: Shapes, h: Heap, p: Addr, i: nat, v: Addr)
    requires p < |sh| == |h.cells| && i < |h.cells[p].slots| && SlotsOk(sh, h) && h.cells[p].live
    requires MayHold(sh, h, v)
    ensures SlotsOk(sh, SetSlot(h, p, i, v))
  {
    var h1 := SetSlot(h, p, i, v);
    forall y | 0 <= y < |sh| ensures GoodSlots(sh, h1, y) {
      assert GoodSlots(sh, h, y);
      forall j | 0 <= j < |h1.cells[y].slots| ensures MayHold(sh, h1, h1.cells[y].slots[j]) {
        assert MayHold(sh, h, h.cells[y].slots[j]);
      }
    }
  }

  /** The heap after the write of a strong store, before the old value is released. */
  ghost function Stored(sh: Shapes, h: Heap, p: Addr, i: nat, v: Addr): (r: Heap)
    requires |sh| == |h.cells| && p < |h.cells| && i < |h.cells[p].slots|
    ensures |r.cells| == |h.cells|
  {
    SetSlot(Retained(sh, h, v), p, i, v)
  }

  /** A strong store that a client may make. */
  ghost predicate Stores(sh: Shapes, h: Heap, p: Addr, i: nat, v: Addr, ext: multiset<Addr>) {
    && Inv(sh, h, ext, {}) && IsLive(h, p) && i < |h.cells[p].slots|
    && (v == NIL || IsLive(h, v)) && h.cells[p].slots[i] != v
  }

  lemma {:induction false} StoredIs(sh: Shapes, h: Heap, p: Addr, i: nat, v: Addr, ext: multiset<Addr>)
    requires Stores(sh, h, p, i, v, ext)
    ensures StoreStrong(sh, h, p, i, v) ==
            if h.cells[p].slots[i] == NIL then Stored(sh, h, p, i, v)
            else Release(sh, Stored(sh, h, p, i, v), h.cells[p].slots[i])
    ensures forall x :: 0 <= x < |sh| ==> Stored(sh, h, p, i, v).cells[x].live == h.cells[x].live
    ensures MayHold(sh, h, h.cells[p].slots[i])
  {
    hide CountsOk, OwnersOk, HandlesOk;
    RetainedKeeps(sh, h, v, ext);
    assert GoodSlots(sh, h, p);
  }

  /** What the write leaves to be released. */
  ghost function Loose(sh: Shapes, h: Heap, was: Addr): set<Addr>
    requires |sh| == |h.cells|
  {
    if IsLive(h, was) && sh[was].kind.Embedded? then {was} else {}
  }

  lemma {:induction false} WriteKeeps(sh: Shapes, h: Heap, p: Addr, i: nat, v: Addr, ext: multiset<Addr>)
    requires Inv(sh, h, With(sh, ext, v), {}) && IsLive(h, p) && i < |h.cells[p].slots|
    requires v == NIL || IsLive(h, v)
    ensures var was := h.cells[p].slots[i];
            Inv(sh, SetSlot(h, p, i, v), With(sh, ext, was), Loose(sh, SetSlot(h, p, i, v), was))
  {
    hide CountsOk, OwnersOk, SlotsOk, HandlesOk, Refs;
    var was, hn := h.cells[p].slots[i], SetSlot(h, p, i, NIL);
    SetSlotTwice(h, p, i, v);
    if was == NIL {
      assert h.cells[p].slots[i := NIL] == h.cells[p].slots && hn.cells == h.cells;
    } else {
      TakeKeeps(sh, h, p, i, With(sh, ext, v), {});
    }
    assert {} + {was} == {was};
    assert Inv(sh, hn, With(sh, With(sh, ext, v), was), Loose(sh, hn, was));
    assert With(sh, With(sh, ext, v), was) == With(sh, With(sh, ext, was), v);
    if v != NIL {
      FillKeeps(sh, hn, p, i, v, With(sh, ext, was), Loose(sh, hn, was));
    }
  }

  lemma SetSlotTwice(h: Heap, p: Addr, i: nat, v: Addr)
    requires p < |h.cells| && i < |h.cells[p].slots|
    ensures SetSlot(SetSlot(h, p, i, NIL), p, i, v) == SetSlot(h, p, i, v)
  {
    var c := h.cells[p];
    assert c.slots[i := NIL][i := v] == c.slots[i := v];
    assert SetSlot(SetSlot(h, p, i, NIL), p, i, v).cells == SetSlot(h, p, i, v).cells;
  }

  /** An embedded object that was taken out of an alias slot is still owned by its own slot. */
  lemma {:induction false} AliasKeeps(sh: Shapes, h: Heap, e: Addr, ext: multiset<Addr>)
    requires Inv(sh, h, ext, {e}) && OwnerHolds(sh, h, e) && h.cells[e].rc == 1
    requires sh[e].kind.parent < e && IsLive(h, sh[e].kind.parent)
    ensures Inv(sh, h, ext, {}) && Release(sh, h, e) == h
  {
    forall x | 0 <= x < |sh| ensures Counted(sh, h, ext, {}, x) {
      assert Counted(sh, h, ext, {e}, x);
    }
    forall x | 0 <= x < |sh| ensures Owned(sh, h, {}, x) {
      assert Owned(sh, h, {e}, x);
    }
  }

  /** Releasing an embedded object that its owner slot no longer holds starts its destruction. */
  lemma {:induction false} LooseStarts(sh: Shapes, h: Heap, e: Addr, ext: multiset<Addr>)
    requires Inv(sh, h, ext, {e}) && IsLive(h, e) && sh[e].kind.Embedded? && h.cells[e].rc == 1
    requires !OwnerHolds(sh, h, e)
    ensures Inv(sh, SetRc(h, e, 0), ext, {e}) && Release(sh, h, e) == Destroy(sh, SetRc(h, e, 0), e)
  {
    var h1 := SetRc(h, e, 0);
    RefsOfCell(h, e, h1.cells[e]);
    SameSlotsKeep(sh, h, h1);
    SameOwnersKeep(sh, h, h1, {e}, {e});
    forall x | 0 <= x < |sh| ensures Counted(sh, h1, ext, {e}, x) {
      assert Counted(sh, h, ext, {e}, x);
    }
  }

  lemma {:induction false} LooseKeeps(sh: Shapes, h: Heap, e: Addr, ext: multiset<Addr>)
    requires Inv(sh, h, ext, {e}) && IsLive(h, e) && sh[e].kind.Embedded? && h.cells[e].rc == 1
    requires !OwnerHolds(sh, h, e)
    ensures Inv(sh, Release(sh, h, e), ext, {}) && !IsLive(Release(sh, h, e), e)
  {
    hide CountsOk, OwnersOk, SlotsOk, HandlesOk;
    LooseStarts(sh, h, e, ext);
    DestroyKeeps(sh, SetRc(h, e, 0), e, ext, {e});
    assert {} + {e} == {e};
    ForgetKeeps(sh, Release(sh, h, e), e, ext, {});
  }

  /** The old value of a store over an embedded object: it is counted once and, unless the slot was its owner
      slot, still held by that. */
  lemma {:induction false} OldEmbedded(sh: Shapes, h: Heap, p: Addr, i: nat, v: Addr, ext: multiset<Addr>)
    requires Stores(sh, h, p, i, v, ext)
    requires var e := h.cells[p].slots[i]; IsLive(h, e) && sh[e].kind.Embedded?
    ensures var e, h2 := h.cells[p].slots[i], Stored(sh, h, p, i, v);
            && Inv(sh, h2, ext, {e}) && IsLive(h2, e) && h2.cells[e].rc == 1
            && sh[e].kind.parent < e && IsLive(h2, sh[e].kind.parent)
            && (OwnerHolds(sh, h2, e) <==> sh[e].kind != Embedded(p, i))
  {
    hide CountsOk, SlotsOk, HandlesOk, Refs;
    var e := h.cells[p].slots[i];
    assert Owned(sh, h, {}, e);
    RetainedKeeps(sh, h, v, ext);
    WriteKeeps(sh, Retained(sh, h, v), p, i, v, ext);
    RetainLeaves(sh, h, v, e, ext);
  }

  lemma {:induction false} RetainLeaves(sh: Shapes, h: Heap, v: Addr, e: Addr, ext: multiset<Addr>)
    requires Inv(sh, h, ext, {}) && (v == NIL || IsLive(h, v)) && IsLive(h, e) && sh[e].kind.Embedded?
    ensures Retained(sh, h, v).cells[e].rc == h.cells[e].rc
  {
    assert Owned(sh, h, {}, e);
  }

  /** Every strong store keeps the counts exact. */
  lemma {:induction false} StoreKeeps(sh: Shapes, h: Heap, p: Addr, i: nat, v: Addr, ext: multiset<Addr>)
    requires Inv(sh, h, ext, {}) && IsLive(h, p) && i < |h.cells[p].slots| && (v == NIL || IsLive(h, v))
    ensures Inv(sh, StoreStrong(sh, h, p, i, v), ext, {})
  {
    hide CountsOk, OwnersOk, SlotsOk, HandlesOk, Refs, Release, SetSlot, Retained;
    var was := h.cells[p].slots[i];
    if was != v {
      StoredIs(sh, h, p, i, v, ext);
      var h2 := Stored(sh, h, p, i, v);
      RetainedKeeps(sh, h, v, ext);
      WriteKeeps(sh, Retained(sh, h, v), p, i, v, ext);
      if IsLive(h, was) && sh[was].kind.Embedded? {
        OldEmbedded(sh, h, p, i, v, ext);
        if OwnerHolds(sh, h2, was) {
          AliasKeeps(sh, h2, was, ext);
        } else {
          LooseKeeps(sh, h2, was, ext);
        }
      } else if was != NIL && sh[was].kind.Ordinary? {
        ReleaseKeeps(sh, h2, was, ext, {});
      } else if was != NIL {
        UnmanagedStays(sh, h2, was);
      }
    }
  }

  lemma {:induction false} UnmanagedStays(sh: Shapes, h: Heap, o: Addr)
    requires |sh| == |h.cells| && (!IsLive(h, o) || sh[o].kind.Immortal?)
    ensures Release(sh, h, o) == h
  {
  }

  // ---------------------------------------------------------------- what a store destroys

  /** A store over nil, a value of static storage, a stale alias or an alias of a live embedded object destroys
      nothing. */
  lemma {:induction false} QuietStore(sh: Shapes, h: Heap, p: Addr, i: nat, v: Addr, ext: multiset<Addr>)
    requires Stores(sh, h, p, i, v, ext)
    requires var was := h.cells[p].slots[i];
             IsLive(h, was) ==> sh[was].kind.Immortal? || (sh[was].kind.Embedded? && sh[was].kind != Embedded(p, i))
    ensures StoreStrong(sh, h, p, i, v) == Stored(sh, h, p, i, v)
  {
    hide CountsOk, OwnersOk, SlotsOk, HandlesOk, Refs, Release, SetSlot, Retained;
    var was := h.cells[p].slots[i];
    StoredIs(sh, h, p, i, v, ext);
    if IsLive(h, was) && sh[was].kind.Embedded? {
      OldEmbedded(sh, h, p, i, v, ext);
      AliasKeeps(sh, Stored(sh, h, p, i, v), was, ext);
    } else if was != NIL {
      UnmanagedStays(sh, Stored(sh, h, p, i, v), was);
    }
  }

  /** The slot keeps the value stored in it as long as its object lives, unless the value is embedded there and died
      in the same store. Every other slot of an object that survives is as it was, but for embedded objects it owned
      that died. */
  lemma {:induction false} StoreWrites(sh: Shapes, h: Heap, p: Addr, i: nat, v: Addr, ext: multiset<Addr>, y: Addr,
                                       j: nat)
    requires Inv(sh, h, ext, {}) && IsLive(h, p) && i < |h.cells[p].slots| && (v == NIL || IsLive(h, v))
    requires y < |sh| && IsLive(StoreStrong(sh, h, p, i, v), y) && j < |h.cells[y].slots|
    ensures var r := StoreStrong(sh, h, p, i, v);
            && |r.cells| == |sh| && j < |r.cells[y].slots| && h.cells[y].live
            && Left(sh, h, r, y, j, if y == p && j == i then v else h.cells[y].slots[j], r.cells[y].slots[j])
  {
    hide CountsOk, OwnersOk, SlotsOk, HandlesOk, Refs, Release, Shrinks;
    var was := h.cells[p].slots[i];
    if was != v {
      StoredIs(sh, h, p, i, v, ext);
      var h2 := Stored(sh, h, p, i, v);
      WrittenSlot(sh, h, p, i, v, y, j);
      if was != NIL {
        var r := Release(sh, h2, was);
        ReleaseSpares(sh, h2, was);
        assert Died(h, r) == Died(h2, r);
        Outlived(h2, r, y);
        assert Left(sh, h2, r, y, j, h2.cells[y].slots[j], r.cells[y].slots[j]);
      }
    }
  }

  lemma Outlived(a: Heap, b: Heap, y: Addr)
    requires Shrinks(a, b) && y < |a.cells| && IsLive(b, y)
    ensures a.cells[y].live && |b.cells| == |a.cells| && |b.cells[y].slots| == |a.cells[y].slots|
  {
  }

  lemma WrittenSlot(sh: Shapes, h: Heap, p: Addr, i: nat, v: Addr, y: Addr, j: nat)
    requires |sh| == |h.cells| && p < |h.cells| && i < |h.cells[p].slots| && y < |sh| && j < |h.cells[y].slots|
    ensures |Stored(sh, h, p, i, v).cells[y].slots| == |h.cells[y].slots|
    ensures Stored(sh, h, p, i, v).cells[y].slots[j] == if y == p && j == i then v else h.cells[y].slots[j]
  {
  }

  /** A store over a counted object destroys what the lost reference leaves without references. */
  lemma {:induction false} StoreOverCounted(sh: Shapes, h: Heap, p: Addr, i: nat, v: Addr, ext: multiset<Addr>)
    requires Stores(sh, h, p, i, v, ext)
    requires var was := h.cells[p].slots[i]; IsLive(h, was) && sh[was].kind.Ordinary?
    ensures LeastDied(sh, Stored(sh, h, p, i, v), StoreStrong(sh, h, p, i, v), ext, {})
  {
    hide CountsOk, OwnersOk, SlotsOk, HandlesOk, Refs, Release, SetSlot, Retained, LeastDied;
    StoredIs(sh, h, p, i, v, ext);
    RetainedKeeps(sh, h, v, ext);
    WriteKeeps(sh, Retained(sh, h, v), p, i, v, ext);
    ReleaseLeastDied(sh, Stored(sh, h, p, i, v), h.cells[p].slots[i], ext);
  }

  /** A store over the owner slot of a live embedded object. */
  ghost predicate StoresOverOwned(sh: Shapes, h: Heap, p: Addr, i: nat, v: Addr, ext: multiset<Addr>) {
    Stores(sh, h, p, i, v, ext) && IsLive(h, h.cells[p].slots[i]) && sh[h.cells[p].slots[i]].kind == Embedded(p, i)
  }

  lemma {:induction false} LooseLeastDied(sh: Shapes, h: Heap, e: Addr, ext: multiset<Addr>)
    requires Inv(sh, h, ext, {e}) && IsLive(h, e) && sh[e].kind.Embedded? && h.cells[e].rc == 1
    requires !OwnerHolds(sh, h, e)
    ensures LeastDied(sh, h, Release(sh, h, e), ext, {e})
  {
    hide CountsOk, OwnersOk, SlotsOk, HandlesOk, Begun, Confined, LeastDied, Refs;
    var r := Release(sh, h, e);
    LooseKeeps(sh, h, e, ext);
    ReleaseTraced(sh, h, e);
    forall dead: set<Addr>, clear: set<Addr> | Begun(sh, h, h, ext, dead, clear) && {e} <= dead
      ensures Confined(sh, h, h, r, {}, dead, clear)
    {
      LooseConfined(sh, h, e, ext, dead, clear);
    }
    LeastFrom(sh, h, r, ext, {e});
  }

  lemma {:induction false} LooseConfined(sh: Shapes, h: Heap, e: Addr, ext: multiset<Addr>, dead: set<Addr>,
                                         clear: set<Addr>)
    requires Inv(sh, h, ext, {e}) && IsLive(h, e) && sh[e].kind.Embedded? && h.cells[e].rc == 1
    requires !OwnerHolds(sh, h, e) && Begun(sh, h, h, ext, dead, clear) && e in dead
    ensures Confined(sh, h, h, Release(sh, h, e), {}, dead, clear)
  {
    hide CountsOk, OwnersOk, SlotsOk, HandlesOk, Begun, Confined, Refs;
    LooseStarts(sh, h, e, ext);
    SetRcBegins(sh, h, h, e, 0, ext, dead, clear);
    LeadsToItself(h, dead, e);
    DestroyConfined(sh, h, SetRc(h, e, 0), e, ext, {e}, dead, clear);
    assert {e} - {e} == {};
    RecountedConfined(sh, h, h, e, Release(sh, h, e), {}, dead, clear);
  }

  /** A store over an owner slot destroys the embedded object, aliased or not, together with just what has to go
      with it. */
  lemma {:induction false} StoreOverOwned(sh: Shapes, h: Heap, p: Addr, i: nat, v: Addr, ext: multiset<Addr>)
    requires StoresOverOwned(sh, h, p, i, v, ext)
    ensures LeastDied(sh, Stored(sh, h, p, i, v), StoreStrong(sh, h, p, i, v), ext, {h.cells[p].slots[i]})
  {
    hide CountsOk, OwnersOk, SlotsOk, HandlesOk, Refs, Release, SetSlot, Retained, LeastDied;
    StoredIs(sh, h, p, i, v, ext);
    OldEmbedded(sh, h, p, i, v, ext);
    LooseLeastDied(sh, Stored(sh, h, p, i, v), h.cells[p].slots[i], ext);
  }

  // ---------------------------------------------------------------- when that is safe

  /** An object that is still held where destruction has to come is met again. */
  lemma {:induction false} MetAgain(sh: Shapes, h: Heap, e: Addr, ext: multiset<Addr>, y: Addr)
    requires Inv(sh, h, ext, {e}) && IsLive(h, e) && sh[e].kind.Embedded? && h.cells[e].rc == 1
    requires !OwnerHolds(sh, h, e) && y in Died(h, Release(sh, h, e)) && Holds(h, y, e)
    ensures multiset(New(h, Release(sh, h, e)))[e] > 1
  {
    hide CountsOk, OwnersOk, SlotsOk, HandlesOk, Refs, ClearFrom, Release, Destroy;
    var r := Release(sh, h, e);
    LooseStarts(sh, h, e, ext);
    LooseKeeps(sh, h, e, ext);
    var h1 := SetRc(h, e, 0);
    var h2 := h1.(finalized := h1.finalized + [e]);
    HoldersAreCleared(sh, h, e, ext, y);
    var h3 := ClearFrom(sh, h2, e, 0);
    ClearTraced(sh, h2, e, 0);
    DisposeTraced(sh, h1, h2, h3, e);
    assert r == Dispose(sh, h3, e) by { DestroyIs(sh, h1, e); }
    assert New(h, r) == New(h1, r);
    TakenInClearing(sh, h2, h3, e, ext, y);
    assert e in New(h2, h3);
  }

  lemma {:induction false} DestroyIs(sh: Shapes, h: Heap, o: Addr)
    requires |sh| == |h.cells| && IsLive(h, o) && !sh[o].trivial
    ensures var h0 := h.(finalized := h.finalized + [o]);
            Destroy(sh, h, o) == Dispose(sh, ClearFrom(sh, h0, o, 0), o)
  {
  }

  /** An object without ivars takes nothing along. */
  lemma {:induction false} HoldersAreCleared(sh: Shapes, h: Heap, e: Addr, ext: multiset<Addr>, y: Addr)
    requires Inv(sh, h, ext, {e}) && IsLive(h, e) && sh[e].kind.Embedded? && h.cells[e].rc == 1
    requires !OwnerHolds(sh, h, e) && y in Died(h, Release(sh, h, e)) && Holds(h, y, e)
    ensures !sh[e].trivial
  {
    hide CountsOk, OwnersOk, HandlesOk, Release;
    assert GoodSlots(sh, h, e);
    if sh[e].trivial {
      TrivialDiesAlone(sh, h, e);
    }
  }

  lemma {:induction false} TrivialDiesAlone(sh: Shapes, h: Heap, e: Addr)
    requires |sh| == |h.cells| && IsLive(h, e) && sh[e].kind.Embedded? && h.cells[e].rc == 1 && sh[e].trivial
    requires !OwnerHolds(sh, h, e)
    ensures Died(h, Release(sh, h, e)) == {e}
  {
    assert Release(sh, h, e) == Dispose(sh, SetRc(h, e, 0).(finalized := h.finalized + [e]), e);
  }

  /** The slot of `y` that held `e` was emptied by the clearing loop, which destroys what it takes out. */
  lemma {:induction false} TakenInClearing(sh: Shapes, h: Heap, h1: Heap, e: Addr, ext: multiset<Addr>, y: Addr)
    requires |sh| == |h.cells| && Traced(sh, h, h1) && Shrinks(h, h1) && Holds(h, y, e)
    requires IsLive(h, e) && sh[e].kind.Embedded? && !OwnerHolds(sh, h, e) && e != NIL
    requires Inv(sh, Dispose(sh, h1, e), ext, {}) && !IsLive(Dispose(sh, h1, e), y)
    ensures !IsLive(h1, e)
  {
    hide CountsOk, OwnersOk, HandlesOk, Logged;
    var r := Dispose(sh, h1, e);
    var j :| 0 <= j < |h.cells[y].slots| && h.cells[y].slots[j] == e;
    assert GoodSlots(sh, r, y);
    assert Gone(sh, h, h1, h.cells[y].slots[j], h1.cells[y].slots[j]);
  }

  /** An overwritten embedded object is finalized once exactly if nothing that dies with it held it. */
  lemma {:induction false} FinalizedOnceIff(sh: Shapes, h: Heap, e: Addr, ext: multiset<Addr>)
    requires Inv(sh, h, ext, {e}) && IsLive(h, e) && sh[e].kind.Embedded? && h.cells[e].rc == 1
    requires !OwnerHolds(sh, h, e)
    ensures var r := Release(sh, h, e);
            multiset(New(h, r))[e] == 1 <==> forall y: Addr :: y in Died(h, r) ==> !Holds(h, y, e)
  {
    hide CountsOk, OwnersOk, SlotsOk, HandlesOk, Refs, Release, Closed, Untouched;
    var r := Release(sh, h, e);
    LooseLeastDied(sh, h, e, ext);
    if forall y: Addr :: y in Died(h, r) ==> !Holds(h, y, e) {
      UnheldIsOnNoLoop(h, Died(h, r), e);
      assert Once(h, r, e);
    } else {
      var y: Addr :| y in Died(h, r) && Holds(h, y, e);
      MetAgain(sh, h, e, ext, y);
    }
  }

  lemma {:induction false} UnheldIsOnNoLoop(h: Heap, dead: set<Addr>, e: Addr)
    requires forall y: Addr :: y in dead ==> !Holds(h, y, e)
    ensures !Loops(h, dead, e)
  {
    if Loops(h, dead, e) {
      LoopedIsHeld(h, dead, e);
    }
  }

  lemma {:induction false} LoopedIsHeld(h: Heap, dead: set<Addr>, e: Addr)
    requires Loops(h, dead, e)
    ensures exists y: Addr :: y in dead && Holds(h, y, e)
  {
    var path :| IsPathFrom(h, dead, path, e, e) && |path| > 1;
    var k := |path| - 2;
    assert path[k] in dead && Holds(h, path[k], path[k + 1]);
  }

  /** `e` can go without `k`: a closed set has the one and not the other, and none of its members holds `e`. */
  ghost predicate Spares(sh: Shapes, h: Heap, ext: multiset<Addr>, dead: set<Addr>, e: Addr, k: Addr)
    requires |sh| == |h.cells|
  {
    Closed(sh, h, ext, dead) && e in dead && k !in dead && forall y: Addr :: y in dead ==> !Holds(h, y, e)
  }

  /** A store over the owner slot of an embedded object finalizes it once and leaves `k`, its parent or any
      other object, alive if and only if the object can go without `k` once the slot is written. */
  lemma {:induction false} StoreIsSafeIff(sh: Shapes, h: Heap, p: Addr, i: nat, v: Addr, ext: multiset<Addr>, k: Addr)
    requires StoresOverOwned(sh, h, p, i, v, ext) && IsLive(h, k)
    ensures var e, h2, r := h.cells[p].slots[i], Stored(sh, h, p, i, v), StoreStrong(sh, h, p, i, v);
            (multiset(New(h2, r))[e] == 1 && IsLive(r, k)) <==>
            exists dead :: Spares(sh, h2, ext, dead, e, k)
  {
    hide CountsOk, OwnersOk, SlotsOk, HandlesOk, Refs, Release, SetSlot, Retained, Closed, Untouched;
    StoredIs(sh, h, p, i, v, ext);
    OldEmbedded(sh, h, p, i, v, ext);
    var e, h2, r := h.cells[p].slots[i], Stored(sh, h, p, i, v), StoreStrong(sh, h, p, i, v);
    LooseLeastDied(sh, h2, e, ext);
    FinalizedOnceIff(sh, h2, e, ext);
    assert IsLive(r, k) <==> k !in Died(h2, r);
    if multiset(New(h2, r))[e] == 1 && IsLive(r, k) {
      assert Spares(sh, h2, ext, Died(h2, r), e, k);
    }
    if dead :| Spares(sh, h2, ext, dead, e, k) {
      assert Died(h2, r) <= dead;
    }
  }
}

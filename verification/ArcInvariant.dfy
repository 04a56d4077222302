/** What every operation of `Arc` keeps: exact reference counts, no dangling strong slot, and embedded
    storage that is live exactly while its owner slot holds it. Any slot may alias an embedded object.
    The invariant also covers the middle of a release cascade, where `dying` has the objects that are
    being destroyed; one that was met again in the meantime may already be gone. */
module ArcInvariant {
  import opened Arc

  ghost predicate Counted(sh: Shapes, h: Heap, ext: multiset<Addr>, dying: set<Addr>, x: Addr)
    requires x < |sh| == |h.cells|
  {
    h.cells[x].live && sh[x].kind.Ordinary? ==>
      && h.cells[x].rc == ext[x] + Refs(h.cells)[x]
      && (h.cells[x].rc == 0 <==> x in dying)
  }

  ghost predicate Owned(sh: Shapes, h: Heap, dying: set<Addr>, x: Addr)
    requires x < |sh| == |h.cells|
  {
    && (OwnerHolds(sh, h, x) ==> h.cells[x].live)
    && (h.cells[x].live && sh[x].kind.Embedded? && x !in dying ==>
          sh[x].kind.parent < x && h.cells[sh[x].kind.parent].live && h.cells[x].rc == 1 && OwnerHolds(sh, h, x))
  }

  /** A strong slot may hold `v`: anything live, and the address of embedded storage even after its death. */
  ghost predicate MayHold(sh: Shapes, h: Heap, v: Addr)
    requires |sh| == |h.cells|
  {
    v != NIL ==> v < |sh| && (!sh[v].kind.Embedded? ==> h.cells[v].live)
  }

  ghost predicate GoodSlots(sh: Shapes, h: Heap, y: Addr)
    requires y < |sh| == |h.cells|
  {
    && (forall j :: 0 <= j < |h.cells[y].slots| ==> MayHold(sh, h, h.cells[y].slots[j]))
    && (!h.cells[y].live ==> forall j :: 0 <= j < |h.cells[y].slots| ==> h.cells[y].slots[j] == NIL)
    && (h.cells[y].live && sh[y].trivial ==> h.cells[y].slots == [])
  }

  ghost predicate CountsOk(sh: Shapes, h: Heap, ext: multiset<Addr>, dying: set<Addr>)
    requires |sh| == |h.cells|
  {
    forall x :: 0 <= x < |sh| ==> Counted(sh, h, ext, dying, x)
  }

  ghost predicate OwnersOk(sh: Shapes, h: Heap, dying: set<Addr>)
    requires |sh| == |h.cells|
  {
    forall x :: 0 <= x < |sh| ==> Owned(sh, h, dying, x)
  }

  ghost predicate SlotsOk(sh: Shapes, h: Heap)
    requires |sh| == |h.cells|
  {
    forall y :: 0 <= y < |sh| ==> GoodSlots(sh, h, y)
  }

  /** Only mortal objects are being destroyed, and outside references are to live ordinary ones. */
  ghost predicate HandlesOk(sh: Shapes, h: Heap, ext: multiset<Addr>, dying: set<Addr>)
    requires |sh| == |h.cells|
  {
    && (forall x :: x in dying ==> x < |sh| && !sh[x].kind.Immortal?)
    && (forall x :: x in ext ==> x < |sh| && h.cells[x].live && sh[x].kind.Ordinary?)
  }

  ghost predicate Inv(sh: Shapes, h: Heap, ext: multiset<Addr>, dying: set<Addr>) {
    && |sh| == |h.cells| > 0
    && !h.cells[NIL].live
    && CountsOk(sh, h, ext, dying)
    && OwnersOk(sh, h, dying)
    && SlotsOk(sh, h)
    && HandlesOk(sh, h, ext, dying)
  }

  /** A write to one slot takes one reference from the old value and gives one to the new. */
  lemma {:induction false} RefsOfSlotChange(h: Heap, p: Addr, i: nat, v: Addr)
    requires p < |h.cells| && i < |h.cells[p].slots|
    ensures var was := h.cells[p].slots[i];
            forall x :: Refs(SetSlot(h, p, i, v).cells)[x] + (if x == was then 1 else 0)
                     == Refs(h.cells)[x] + (if x == v then 1 else 0)
  {
    hide Refs;
    var c := h.cells[p].(slots := h.cells[p].slots[i := v]);
    RefsUpdate(h.cells, p, c);
    var was, r := h.cells[p].slots[i], SetSlot(h, p, i, v).cells;
    assert r == h.cells[p := c];
    forall x ensures Refs(r)[x] + (if x == was then 1 else 0) == Refs(h.cells)[x] + (if x == v then 1 else 0) {
      SlotChange(h.cells[p].slots, i, v, x);
      CountsBalance(Refs(r), multiset(h.cells[p].slots), Refs(h.cells), multiset(c.slots), x);
    }
  }

  lemma {:induction false} SlotChange(slots: seq<Addr>, i: nat, v: Addr, x: Addr)
    requires i < |slots|
    ensures multiset(slots[i := v])[x] + (if x == slots[i] then 1 else 0) == multiset(slots)[x] +
            (if x == v then 1 else 0)
  {
  }

  lemma {:induction false} CountsBalance(a: multiset<Addr>, m: multiset<Addr>, b: multiset<Addr>, n: multiset<Addr>,
                                         x: Addr)
    requires a + m == b + n
    ensures a[x] + m[x] == b[x] + n[x]
  {
    assert (a + m)[x] == (b + n)[x];
  }

  lemma RefsOfCell(h: Heap, o: Addr, c: Cell)
    requires o < |h.cells| && c.slots == h.cells[o].slots
    ensures Refs(h.cells[o := c]) == Refs(h.cells)
  {
    RefsUpdate(h.cells, o, c);
    var m := multiset(c.slots);
    assert Refs(h.cells[o := c]) == (Refs(h.cells[o := c]) + m) - m;
    assert Refs(h.cells) == (Refs(h.cells) + m) - m;
  }

  // ---------------------------------------------------------------- the cascade

  /** Releasing an ordinary object spends one outside reference to it. */
  lemma {:induction false} ReleaseKeeps(sh: Shapes, h: Heap, o: Addr, ext: multiset<Addr>, dying: set<Addr>)
    requires Inv(sh, h, ext + multiset{o}, dying)
    ensures Inv(sh, Release(sh, h, o), ext, dying)
    decreases Held(h.cells), 2, 0
  {
    hide CountsOk, OwnersOk, SlotsOk, HandlesOk, Refs;
    HandleIsCounted(sh, h, o, ext, dying);
    if h.cells[o].rc > 1 {
      SetRcKeeps(sh, h, o, h.cells[o].rc - 1, ext, dying);
    } else {
      LastRelease(sh, h, o, ext, dying);
      DestroyKeeps(sh, SetRc(h, o, 0), o, ext, dying + {o});
      ForgetKeeps(sh, Release(sh, h, o), o, ext, dying);
    }
  }

  /** An object that is gone is no longer being destroyed. */
  lemma {:induction false} ForgetKeeps(sh: Shapes, h: Heap, o: Addr, ext: multiset<Addr>, dying: set<Addr>)
    requires Inv(sh, h, ext, dying + {o}) && o < |sh| && !h.cells[o].live
    ensures Inv(sh, h, ext, dying)
  {
    forall x | 0 <= x < |sh| ensures Counted(sh, h, ext, dying, x) {
      assert Counted(sh, h, ext, dying + {o}, x);
    }
    forall x | 0 <= x < |sh| ensures Owned(sh, h, dying, x) {
      assert Owned(sh, h, dying + {o}, x);
    }
  }

  /** What an outside reference is to. */
  lemma {:induction false} HandleIsCounted(sh: Shapes, h: Heap, o: Addr, ext: multiset<Addr>, dying: set<Addr>)
    requires Inv(sh, h, ext + multiset{o}, dying)
    ensures o < |sh| && IsLive(h, o) && sh[o].kind.Ordinary? && h.cells[o].rc > 0 && !Unmanaged(sh, h, o)
  {
    assert o in ext + multiset{o};
    assert Counted(sh, h, ext + multiset{o}, dying, o);
  }

  /** The release that finds a count of at most one takes the last reference: no slot holds `o`, no caller
      does, and it is not being destroyed already. */
  lemma LastRelease(sh: Shapes, h: Heap, o: Addr, ext: multiset<Addr>, dying: set<Addr>)
    requires Inv(sh, h, ext + multiset{o}, dying) && o < |sh| && h.cells[o].rc <= 1
    ensures h.cells[o].live && sh[o].kind.Ordinary? && h.cells[o].rc == 1
    ensures o !in dying && ext[o] == 0 && (forall y :: 0 <= y < |sh| ==> o !in h.cells[y].slots)
    ensures Inv(sh, SetRc(h, o, 0), ext, dying + {o})
  {
    var ext1 := ext + multiset{o};
    assert o in ext1;
    assert Counted(sh, h, ext1, dying, o);
    SetRcKeeps(sh, h, o, 0, ext, dying);
    RefsMember(h.cells, o);
  }

  /** A release that only rewrites the count of `o`; at count zero `o` becomes dying. */
  lemma SetRcKeeps(sh: Shapes, h: Heap, o: Addr, rc: nat, ext: multiset<Addr>, dying: set<Addr>)
    requires Inv(sh, h, ext + multiset{o}, dying) && o < |sh| && rc + 1 == h.cells[o].rc
    ensures Inv(sh, SetRc(h, o, rc), ext, if rc == 0 then dying + {o} else dying)
  {
    hide Refs, Counted, Owned, GoodSlots;
    var h1 := SetRc(h, o, rc);
    var dying1 := if rc == 0 then dying + {o} else dying;
    assert o in ext + multiset{o};
    assert SlotsOk(sh, h1) by { SameSlotsKeep(sh, h, h1); }
    assert OwnersOk(sh, h1, dying1) by { SameOwnersKeep(sh, h, h1, dying, dying1); }
    assert CountsOk(sh, h1, ext, dying1) by { SetRcKeepsCounts(sh, h, o, rc, ext, dying); }
    forall x | x in ext ensures x in ext + multiset{o} {}
    assert HandlesOk(sh, h1, ext, dying1);
  }

  lemma SetRcKeepsCounts(sh: Shapes, h: Heap, o: Addr, rc: nat, ext: multiset<Addr>, dying: set<Addr>)
    requires o < |sh| == |h.cells| && CountsOk(sh, h, ext + multiset{o}, dying) && rc + 1 == h.cells[o].rc
    ensures CountsOk(sh, SetRc(h, o, rc), ext, if rc == 0 then dying + {o} else dying)
  {
    var h1 := SetRc(h, o, rc);
    var dying1 := if rc == 0 then dying + {o} else dying;
    RefsOfCell(h, o, h1.cells[o]);
    forall x | 0 <= x < |sh| ensures Counted(sh, h1, ext, dying1, x) {
      assert Counted(sh, h, ext + multiset{o}, dying, x);
    }
  }

  lemma SameSlotsKeep(sh: Shapes, h: Heap, h1: Heap)
    requires |sh| == |h.cells| == |h1.cells| && SlotsOk(sh, h)
    requires forall y :: 0 <= y < |sh| ==> h1.cells[y].slots == h.cells[y].slots && h1.cells[y].live == h.cells[y].live
    ensures SlotsOk(sh, h1)
  {
    forall y | 0 <= y < |sh| ensures GoodSlots(sh, h1, y) {
      assert GoodSlots(sh, h, y);
    }
  }

  lemma SameOwnersKeep(sh: Shapes, h: Heap, h1: Heap, dying: set<Addr>, dying1: set<Addr>)
    requires |sh| == |h.cells| == |h1.cells| && OwnersOk(sh, h, dying) && dying <= dying1
    requires forall y :: 0 <= y < |sh| ==> h1.cells[y].slots == h.cells[y].slots && h1.cells[y].live == h.cells[y].live
    requires forall y :: 0 <= y < |sh| && sh[y].kind.Embedded? && y !in dying1 ==> h1.cells[y].rc == h.cells[y].rc
    ensures OwnersOk(sh, h1, dying1)
  {
    forall x | 0 <= x < |sh| ensures Owned(sh, h1, dying1, x) {
      assert Owned(sh, h, dying, x);
    }
  }

  /** Destroying `o`, which may be met again on the way, leaves it dead and the rest of the invariant as it
      was. */
  lemma {:induction false} DestroyKeeps(sh: Shapes, h: Heap, o: Addr, ext: multiset<Addr>, dying: set<Addr>)
    requires Inv(sh, h, ext, dying) && o in dying && IsLive(h, o)
    ensures Inv(sh, Destroy(sh, h, o), ext, dying) && !Destroy(sh, h, o).cells[o].live
    decreases Held(h.cells), 1, 0
  {
    hide CountsOk, OwnersOk;
    var h0 := h.(finalized := h.finalized + [o]);
    assert !sh[o].kind.Immortal?;
    LogKeeps(sh, h, o, ext, dying);
    if sh[o].trivial {
      assert GoodSlots(sh, h, o);
      DisposeKeeps(sh, h0, o, ext, dying);
    } else {
      ClearKeeps(sh, h0, o, 0, ext, dying);
      DisposeKeeps(sh, ClearFrom(sh, h0, o, 0), o, ext, dying);
    }
  }

  lemma LogKeeps(sh: Shapes, h: Heap, o: Addr, ext: multiset<Addr>, dying: set<Addr>)
    requires Inv(sh, h, ext, dying)
    ensures Inv(sh, h.(finalized := h.finalized + [o]), ext, dying)
  {
    var h1 := h.(finalized := h.finalized + [o]);
    SameSlotsKeep(sh, h, h1);
    SameOwnersKeep(sh, h, h1, dying, dying);
    forall x | 0 <= x < |sh| ensures Counted(sh, h1, ext, dying, x) {
      assert Counted(sh, h, ext, dying, x);
    }
  }

  /** The clearing loop keeps the invariant and leaves every slot of `o` nil. */
  lemma {:induction false} ClearKeeps(sh: Shapes, h: Heap, o: Addr, i: nat, ext: multiset<Addr>, dying: set<Addr>)
    requires Inv(sh, h, ext, dying) && o < |sh|
    requires i <= |h.cells[o].slots| && forall j :: 0 <= j < i ==> h.cells[o].slots[j] == NIL
    ensures Inv(sh, ClearFrom(sh, h, o, i), ext, dying)
    ensures forall j :: 0 <= j < |h.cells[o].slots| ==> ClearFrom(sh, h, o, i).cells[o].slots[j] == NIL
    decreases Held(h.cells), 0, |h.cells[o].slots| - i
  {
    if i < |h.cells[o].slots| {
      var was := h.cells[o].slots[i];
      if was == NIL {
        ClearKeeps(sh, h, o, i + 1, ext, dying);
      } else {
        var h1 := SetSlot(h, o, i, NIL);
        var h2 := Drop(sh, h1, was);
        DropKeeps(sh, h, o, i, ext, dying);
        assert Shrinks(h1, h2);
        assert forall j :: 0 <= j < i + 1 ==> h1.cells[o].slots[j] == NIL;
        ClearKeeps(sh, h2, o, i + 1, ext, dying);
      }
    }
  }

  /** One step of the clearing loop: slot `i` becomes nil and the value it held is dropped. */
  lemma {:induction false} DropKeeps(sh: Shapes, h: Heap, o: Addr, i: nat, ext: multiset<Addr>, dying: set<Addr>)
    requires Inv(sh, h, ext, dying) && o < |sh|
    requires i < |h.cells[o].slots| && h.cells[o].slots[i] != NIL
    ensures Inv(sh, Drop(sh, SetSlot(h, o, i, NIL), h.cells[o].slots[i]), ext, dying)
    decreases Held(SetSlot(h, o, i, NIL).cells), 3, 0
  {
    hide CountsOk, OwnersOk, SlotsOk, HandlesOk;
    var was, h1 := h.cells[o].slots[i], SetSlot(h, o, i, NIL);
    TakeKeeps(sh, h, o, i, ext, dying);
    if sh[was].kind.Ordinary? {
      ReleaseKeeps(sh, h1, was, ext, dying);
    } else if IsLive(h1, was) && sh[was].kind.Embedded? {
      DestroyKeeps(sh, h1, was, ext, dying + {was});
      ForgetKeeps(sh, Destroy(sh, h1, was), was, ext, dying);
    }
  }

  /** Nilling a slot turns the reference it held into an outside one; a live embedded object it held is
      about to be destroyed, whether it was its owner slot or an alias. */
  lemma TakeKeeps(sh: Shapes, h: Heap, o: Addr, i: nat, ext: multiset<Addr>, dying: set<Addr>)
    requires Inv(sh, h, ext, dying) && o < |sh| && i < |h.cells[o].slots|
    requires h.cells[o].slots[i] != NIL
    ensures var was, h1 := h.cells[o].slots[i], SetSlot(h, o, i, NIL);
            was < |sh| &&
            if sh[was].kind.Ordinary? then Inv(sh, h1, ext + multiset{was}, dying)
            else if sh[was].kind.Embedded? && h1.cells[was].live then Inv(sh, h1, ext, dying + {was})
            else Inv(sh, h1, ext, dying)
  {
    var was, h1 := h.cells[o].slots[i], SetSlot(h, o, i, NIL);
    assert GoodSlots(sh, h, o) && MayHold(sh, h, was) && Owned(sh, h, dying, was);
    var ext1 := if sh[was].kind.Ordinary? then ext + multiset{was} else ext;
    var dying1 := if sh[was].kind.Embedded? && h1.cells[was].live then dying + {was} else dying;
    TakeKeepsCounts(sh, h, o, i, ext, dying, ext1, dying1);
    TakeKeepsOwners(sh, h, o, i, dying, dying1);
    NilSlotKeepsSlots(sh, h, o, i);
    assert HandlesOk(sh, h1, ext1, dying1);
    assert Inv(sh, h1, ext1, dying1);
  }

  lemma TakeKeepsCounts(sh: Shapes, h: Heap, o: Addr, i: nat, ext: multiset<Addr>, dying: set<Addr>,
                        ext1: multiset<Addr>, dying1: set<Addr>)
    requires |sh| == |h.cells| && CountsOk(sh, h, ext, dying) && o < |sh| && i < |h.cells[o].slots|
    requires var was := h.cells[o].slots[i];
             was != NIL && was < |sh| &&
             ext1 == (if sh[was].kind.Ordinary? then ext + multiset{was} else ext) &&
             dying <= dying1 <= dying + {was} && (sh[was].kind.Ordinary? ==> dying1 == dying)
    requires !h.cells[NIL].live
    ensures CountsOk(sh, SetSlot(h, o, i, NIL), ext1, dying1)
  {
    var h1 := SetSlot(h, o, i, NIL);
    RefsOfSlotChange(h, o, i, NIL);
    forall x | 0 <= x < |sh| ensures Counted(sh, h1, ext1, dying1, x) {
      assert Counted(sh, h, ext, dying, x);
    }
  }

  lemma TakeKeepsOwners(sh: Shapes, h: Heap, o: Addr, i: nat, dying: set<Addr>, dying1: set<Addr>)
    requires |sh| == |h.cells| && OwnersOk(sh, h, dying) && o < |sh| && i < |h.cells[o].slots| && dying <= dying1
    requires var was := h.cells[o].slots[i];
             was < |sh| && (sh[was].kind.Embedded? && h.cells[was].live ==> was in dying1)
    ensures OwnersOk(sh, SetSlot(h, o, i, NIL), dying1)
  {
    var h1 := SetSlot(h, o, i, NIL);
    forall x | 0 <= x < |sh| ensures Owned(sh, h1, dying1, x) {
      assert Owned(sh, h, dying, x);
    }
  }

  lemma NilSlotKeepsSlots(sh: Shapes, h: Heap, o: Addr, i: nat)
    requires |sh| == |h.cells| && SlotsOk(sh, h) && o < |sh| && i < |h.cells[o].slots|
    ensures SlotsOk(sh, SetSlot(h, o, i, NIL))
  {
    var h1 := SetSlot(h, o, i, NIL);
    forall y | 0 <= y < |sh| ensures GoodSlots(sh, h1, y) {
      assert GoodSlots(sh, h, y);
      forall j | 0 <= j < |h1.cells[y].slots| ensures MayHold(sh, h1, h1.cells[y].slots[j]) {
        assert MayHold(sh, h, h.cells[y].slots[j]);
      }
    }
  }

  lemma DisposeKeeps(sh: Shapes, h: Heap, o: Addr, ext: multiset<Addr>, dying: set<Addr>)
    requires Inv(sh, h, ext, dying) && o in dying && o < |sh| && !sh[o].kind.Immortal?
    requires forall j :: 0 <= j < |h.cells[o].slots| ==> h.cells[o].slots[j] == NIL
    ensures Inv(sh, Dispose(sh, h, o), ext, dying) && !Dispose(sh, h, o).cells[o].live
  {
    if h.cells[o].live {
      var h1 := if OwnerHolds(sh, h, o) then SetSlot(h, sh[o].kind.parent, sh[o].kind.owner, NIL) else h;
      if OwnerHolds(sh, h, o) {
        TakeKeeps(sh, h, sh[o].kind.parent, sh[o].kind.owner, ext, dying);
        assert dying + {o} == dying;
      }
      assert forall j :: 0 <= j < |h1.cells[o].slots| ==> h1.cells[o].slots[j] == NIL;
      BuryKeeps(sh, h1, o, Inside(sh, h1, o), ext, dying);
    }
  }

  ghost function Buried(h: Heap, o: Addr, inside: set<Addr>): Heap
    requires o < |h.cells|
  {
    h.(cells := h.cells[o := h.cells[o].(live := false)], strays := h.strays + inside)
  }

  /** Marking an emptied object disposed: no counted reference to it is left, and nothing live is inside it
      but what is being destroyed itself. */
  lemma BuryKeeps(sh: Shapes, h: Heap, o: Addr, inside: set<Addr>, ext: multiset<Addr>, dying: set<Addr>)
    requires Inv(sh, h, ext, dying) && o in dying && IsLive(h, o) && !OwnerHolds(sh, h, o)
    requires forall j :: 0 <= j < |h.cells[o].slots| ==> h.cells[o].slots[j] == NIL
    ensures Inv(sh, Buried(h, o, inside), ext, dying)
  {
    var h1 := Buried(h, o, inside);
    RefsOfCell(h, o, h1.cells[o]);
    assert Counted(sh, h, ext, dying, o);
    assert CountsOk(sh, h1, ext, dying) by {
      forall x | 0 <= x < |sh| ensures Counted(sh, h1, ext, dying, x) {
        assert Counted(sh, h, ext, dying, x);
      }
    }
    BuryKeepsOwners(sh, h, o, inside, dying);
    BuryKeepsSlots(sh, h, o, inside);
    assert HandlesOk(sh, h1, ext, dying);
  }

  lemma BuryKeepsOwners(sh: Shapes, h: Heap, o: Addr, inside: set<Addr>, dying: set<Addr>)
    requires NIL < o < |sh| == |h.cells| && OwnersOk(sh, h, dying) && o in dying && !OwnerHolds(sh, h, o)
    requires forall j :: 0 <= j < |h.cells[o].slots| ==> h.cells[o].slots[j] == NIL
    ensures OwnersOk(sh, Buried(h, o, inside), dying)
  {
    var h1 := Buried(h, o, inside);
    forall x | 0 <= x < |sh| ensures Owned(sh, h1, dying, x) {
      assert Owned(sh, h, dying, x);  // one of the empty slots of `o` would hold what is inside it
    }
  }

  lemma BuryKeepsSlots(sh: Shapes, h: Heap, o: Addr, inside: set<Addr>)
    requires o < |sh| == |h.cells| && SlotsOk(sh, h)
    requires !sh[o].kind.Embedded? ==> Refs(h.cells)[o] == 0
    requires forall j :: 0 <= j < |h.cells[o].slots| ==> h.cells[o].slots[j] == NIL
    ensures SlotsOk(sh, Buried(h, o, inside))
  {
    var h1 := Buried(h, o, inside);
    RefsMember(h.cells, o);
    forall y | 0 <= y < |sh| ensures GoodSlots(sh, h1, y) {
      assert GoodSlots(sh, h, y);
      forall j | 0 <= j < |h1.cells[y].slots| ensures MayHold(sh, h1, h1.cells[y].slots[j]) {
        assert MayHold(sh, h, h.cells[y].slots[j]);
        assert h.cells[y].slots[j] in h.cells[y].slots;
      }
    }
  }
}

/** What a cascade writes to the log of finalized objects and what it takes out of slots, whatever the
    heap it starts from. */
module ArcLog {
  import opened Arc

  /** The objects live before and disposed after. */
  ghost function Died(before: Heap, after: Heap): set<Addr> {
    set x | 0 <= x < |before.cells| && before.cells[x].live && !IsLive(after, x)
  }

  /** What the log gained. */
  function New(before: Heap, after: Heap): seq<Addr> {
    if |before.finalized| <= |after.finalized| then after.finalized[|before.finalized|..] else []
  }

  /** The log grew by the objects that died and no other. */
  ghost predicate Logged(before: Heap, after: Heap) {
    && before.finalized <= after.finalized
    && forall x: Addr :: x in New(before, after) <==> x in Died(before, after)
  }

  /** A live embedded object that was taken out of a slot, alias or owner, died. */
  ghost predicate Swept(sh: Shapes, before: Heap, after: Heap)
    requires |sh| == |before.cells| == |after.cells|
  {
    forall y, j :: 0 <= y < |sh| && 0 <= j < |before.cells[y].slots| && j < |after.cells[y].slots| ==>
      Gone(sh, before, after, before.cells[y].slots[j], after.cells[y].slots[j])
  }

  ghost predicate Gone(sh: Shapes, before: Heap, after: Heap, was: Addr, now: Addr)
    requires |sh| == |before.cells|
  {
    now == was || (IsLive(before, was) && sh[was].kind.Embedded? ==> !IsLive(after, was))
  }

  /** Only a live object whose parent died strays. */
  ghost predicate Strayed(sh: Shapes, before: Heap, after: Heap) {
    && before.strays <= after.strays
    && forall x: Addr :: x in after.strays && x !in before.strays ==>
         x < |sh| && IsLive(before, x) && sh[x].kind.Embedded? && sh[x].kind.parent in Died(before, after)
  }

  ghost predicate Traced(sh: Shapes, before: Heap, after: Heap) {
    && |sh| == |before.cells| == |after.cells|
    && Logged(before, after) && Swept(sh, before, after) && Strayed(sh, before, after)
  }

  /** The destruction of `x` began once if it died, and not at all otherwise. */
  ghost predicate Once(before: Heap, after: Heap, x: Addr) {
    multiset(New(before, after))[x] == if x in Died(before, after) then 1 else 0
  }

  ghost predicate FinalizesOnce(before: Heap, after: Heap) {
    before.finalized <= after.finalized && forall x: Addr :: Once(before, after, x)
  }

  // ---------------------------------------------------------------- composition

  lemma NewComposes(a: Heap, b: Heap, c: Heap)
    requires a.finalized <= b.finalized <= c.finalized
    ensures a.finalized <= c.finalized && New(a, c) == New(a, b) + New(b, c)
  {
    assert b.finalized == c.finalized[..|b.finalized|];
  }

  lemma DiedComposes(a: Heap, b: Heap, c: Heap)
    requires Shrinks(a, b) && Shrinks(b, c)
    ensures Died(a, c) == Died(a, b) + Died(b, c) && Died(a, b) !! Died(b, c)
  {
  }

  lemma {:induction false} TracedComposes(sh: Shapes, a: Heap, b: Heap, c: Heap)
    requires Shrinks(a, b) && Shrinks(b, c) && Traced(sh, a, b) && Traced(sh, b, c)
    ensures Traced(sh, a, c)
  {
    NewComposes(a, b, c);
    DiedComposes(a, b, c);
    forall y, j | 0 <= y < |sh| && 0 <= j < |a.cells[y].slots| && j < |c.cells[y].slots|
      ensures Gone(sh, a, c, a.cells[y].slots[j], c.cells[y].slots[j])
    {
      assert Gone(sh, a, b, a.cells[y].slots[j], b.cells[y].slots[j]);
      assert Gone(sh, b, c, b.cells[y].slots[j], c.cells[y].slots[j]);
    }
  }

  lemma {:induction false} OnceComposes(a: Heap, b: Heap, c: Heap, x: Addr)
    requires Shrinks(a, b) && Shrinks(b, c) && a.finalized <= b.finalized <= c.finalized
    requires Once(a, b, x) && Once(b, c, x)
    ensures Once(a, c, x)
  {
    NewComposes(a, b, c);
    DiedComposes(a, b, c);
  }

  /** Neither a life nor an ivar changed. */
  ghost predicate SameLives(a: Heap, b: Heap) {
    && |a.cells| == |b.cells| && a.finalized == b.finalized && a.strays == b.strays
    && forall y :: 0 <= y < |a.cells| ==> a.cells[y].live == b.cells[y].live && a.cells[y].slots == b.cells[y].slots
  }

  lemma {:induction false} SameLivesTraced(sh: Shapes, a: Heap, b: Heap, c: Heap)
    requires SameLives(a, b) && |sh| == |a.cells| && Traced(sh, b, c)
    ensures Traced(sh, a, c)
  {
    assert Died(a, c) == Died(b, c) && New(a, c) == New(b, c);
    forall y, j | 0 <= y < |sh| && 0 <= j < |a.cells[y].slots| && j < |c.cells[y].slots|
      ensures Gone(sh, a, c, a.cells[y].slots[j], c.cells[y].slots[j])
    {
      assert Gone(sh, b, c, b.cells[y].slots[j], c.cells[y].slots[j]);
    }
  }

  lemma {:induction false} SelfTraced(sh: Shapes, h: Heap)
    requires |sh| == |h.cells|
    ensures Traced(sh, h, h) && Died(h, h) == {} && New(h, h) == []
  {
  }

  // ---------------------------------------------------------------- the cascade

  lemma {:induction false} ReleaseTraced(sh: Shapes, h: Heap, o: Addr)
    requires |sh| == |h.cells|
    ensures Traced(sh, h, Release(sh, h, o))
    decreases Held(h.cells), 2, 0
  {
    hide Traced, Shrinks, Held, Destroy;
    if Unmanaged(sh, h, o) || h.cells[o].rc == 0 {
      SelfTraced(sh, h);
    } else if h.cells[o].rc > 1 {
      SelfTraced(sh, SetRc(h, o, h.cells[o].rc - 1));
      SameLivesTraced(sh, h, SetRc(h, o, h.cells[o].rc - 1), SetRc(h, o, h.cells[o].rc - 1));
    } else {
      DestroyTraced(sh, SetRc(h, o, 0), o);
      SameLivesTraced(sh, h, SetRc(h, o, 0), Release(sh, h, o));
    }
  }

  lemma {:induction false} DestroyTraced(sh: Shapes, h: Heap, o: Addr)
    requires |sh| == |h.cells| && IsLive(h, o) && !sh[o].kind.Immortal?
    ensures Traced(sh, h, Destroy(sh, h, o)) && !IsLive(Destroy(sh, h, o), o)
    decreases Held(h.cells), 1, 0
  {
    var h0 := h.(finalized := h.finalized + [o]);
    var h1 := if sh[o].trivial then h0 else ClearFrom(sh, h0, o, 0);
    SelfTraced(sh, h0);
    if !sh[o].trivial {
      ClearTraced(sh, h0, o, 0);
    }
    DisposeTraced(sh, h, h0, h1, o);
  }

  /** The log entry written before clearing stands for `o` itself. */
  lemma {:induction false} DisposeTraced(sh: Shapes, h: Heap, h0: Heap, h1: Heap, o: Addr)
    requires |sh| == |h.cells| && IsLive(h, o) && !sh[o].kind.Immortal?
    requires h0 == h.(finalized := h.finalized + [o]) && Shrinks(h0, h1) && Traced(sh, h0, h1)
    ensures var r := Dispose(sh, h1, o);
            && Traced(sh, h, r) && !IsLive(r, o)
            && New(h, r) == [o] + New(h0, h1) && Died(h, r) == Died(h0, h1) + {o}
  {
    var r := Dispose(sh, h1, o);
    NewComposes(h, h0, r);
    assert New(h, h0) == [o] && New(h0, r) == New(h0, h1);
    assert Died(h, r) == Died(h0, h1) + {o};
    forall y, j | 0 <= y < |sh| && 0 <= j < |h.cells[y].slots| && j < |r.cells[y].slots|
      ensures Gone(sh, h, r, h.cells[y].slots[j], r.cells[y].slots[j])
    {
      assert Gone(sh, h0, h1, h0.cells[y].slots[j], h1.cells[y].slots[j]);
    }
  }

  lemma {:induction false} ClearTraced(sh: Shapes, h: Heap, o: Addr, i: nat)
    requires |sh| == |h.cells| && o < |h.cells| && i <= |h.cells[o].slots|
    ensures Traced(sh, h, ClearFrom(sh, h, o, i))
    decreases Held(h.cells), 0, |h.cells[o].slots| - i
  {
    hide Traced;
    if i == |h.cells[o].slots| {
      SelfTraced(sh, h);
    } else {
      var was := h.cells[o].slots[i];
      if was == NIL {
        ClearTraced(sh, h, o, i + 1);
      } else {
        var h1 := SetSlot(h, o, i, NIL);
        var h2 := Drop(sh, h1, was);
        assert Shrinks(h1, h2);
        ShrinksTransitive(h, h1, h2);
        DropTraced(sh, h1, was);
        SlotTraced(sh, h, o, i, h2);
        ClearTraced(sh, h2, o, i + 1);
        TracedComposes(sh, h, h2, ClearFrom(sh, h2, o, i + 1));
      }
    }
  }

  lemma {:induction false} SlotTraced(sh: Shapes, h: Heap, o: Addr, i: nat, r: Heap)
    requires |sh| == |h.cells| && o < |h.cells| && i < |h.cells[o].slots|
    requires var was := h.cells[o].slots[i]; IsLive(h, was) && sh[was].kind.Embedded? ==> !IsLive(r, was)
    requires Traced(sh, SetSlot(h, o, i, NIL), r)
    ensures Traced(sh, h, r)
  {
    var h1 := SetSlot(h, o, i, NIL);
    assert Died(h, r) == Died(h1, r) && New(h, r) == New(h1, r);
    forall y, j | 0 <= y < |sh| && 0 <= j < |h.cells[y].slots| && j < |r.cells[y].slots|
      ensures Gone(sh, h, r, h.cells[y].slots[j], r.cells[y].slots[j])
    {
      assert Gone(sh, h1, r, h1.cells[y].slots[j], r.cells[y].slots[j]);
    }
  }

  lemma {:induction false} DropTraced(sh: Shapes, h: Heap, x: Addr)
    requires |sh| == |h.cells|
    ensures Traced(sh, h, Drop(sh, h, x)) && (IsLive(h, x) && sh[x].kind.Embedded? ==> !IsLive(Drop(sh, h, x), x))
    decreases Held(h.cells), 3, 0
  {
    if IsLive(h, x) && sh[x].kind.Embedded? {
      DestroyTraced(sh, h, x);
    } else {
      ReleaseTraced(sh, h, x);
    }
  }

  // ---------------------------------------------------------------- what a cascade leaves alone

  /** A slot became nil only where it was the owner ivar of an embedded object that died. */
  ghost predicate Left(sh: Shapes, before: Heap, after: Heap, y: Addr, j: nat, was: Addr, now: Addr)
    requires |sh| == |before.cells|
  {
    now == was || (now == NIL && was < |sh| && sh[was].kind == Embedded(y, j) && was in Died(before, after))
  }

  /** That is so in every object still live, `but` aside. */
  ghost predicate Spares(sh: Shapes, before: Heap, after: Heap, but: set<Addr>) {
    && |sh| == |before.cells| == |after.cells|
    && forall y, j :: 0 <= y < |sh| && y !in but && IsLive(after, y)
                      && 0 <= j < |before.cells[y].slots| && j < |after.cells[y].slots| ==>
         Left(sh, before, after, y, j, before.cells[y].slots[j], after.cells[y].slots[j])
  }

  lemma {:induction false} SparesComposes(sh: Shapes, a: Heap, b: Heap, c: Heap, but: set<Addr>)
    requires Shrinks(a, b) && Shrinks(b, c) && Spares(sh, a, b, but) && Spares(sh, b, c, but)
    ensures Spares(sh, a, c, but)
  {
    forall y, j | 0 <= y < |sh| && y !in but && IsLive(c, y) && 0 <= j < |a.cells[y].slots|
      ensures Left(sh, a, c, y, j, a.cells[y].slots[j], c.cells[y].slots[j])
    {
      assert IsLive(b, y);
      assert Left(sh, a, b, y, j, a.cells[y].slots[j], b.cells[y].slots[j]);
      assert Left(sh, b, c, y, j, b.cells[y].slots[j], c.cells[y].slots[j]);
    }
  }

  lemma {:induction false} SparesItself(sh: Shapes, h: Heap, but: set<Addr>)
    requires |sh| == |h.cells|
    ensures Spares(sh, h, h, but)
  {
  }

  lemma {:induction false} SparesFromCount(sh: Shapes, h: Heap, o: Addr, rc: nat, r: Heap, but: set<Addr>)
    requires |sh| == |h.cells| && o < |sh| && Spares(sh, SetRc(h, o, rc), r, but)
    ensures Spares(sh, h, r, but)
  {
    var h1 := SetRc(h, o, rc);
    assert Died(h, r) == Died(h1, r);
    forall y, j | 0 <= y < |sh| && y !in but && IsLive(r, y) && 0 <= j < |h.cells[y].slots| && j < |r.cells[y].slots|
      ensures Left(sh, h, r, y, j, h.cells[y].slots[j], r.cells[y].slots[j])
    {
      assert Left(sh, h1, r, y, j, h1.cells[y].slots[j], r.cells[y].slots[j]);
    }
  }

  /** A cascade takes nothing out of an object that survives it, other than embedded objects of its own that died. */
  lemma {:induction false} ReleaseSpares(sh: Shapes, h: Heap, o: Addr)
    requires |sh| == |h.cells|
    ensures Spares(sh, h, Release(sh, h, o), {})
    decreases Held(h.cells), 2, 0
  {
    hide Spares, Shrinks, Held, Destroy;
    if Unmanaged(sh, h, o) || h.cells[o].rc == 0 {
      SparesItself(sh, h, {});
    } else if h.cells[o].rc > 1 {
      SparesItself(sh, SetRc(h, o, h.cells[o].rc - 1), {});
      SparesFromCount(sh, h, o, h.cells[o].rc - 1, Release(sh, h, o), {});
    } else {
      DestroySpares(sh, SetRc(h, o, 0), o);
      SparesFromCount(sh, h, o, 0, Release(sh, h, o), {});
    }
  }

  lemma {:induction false} DestroySpares(sh: Shapes, h: Heap, o: Addr)
    requires |sh| == |h.cells| && IsLive(h, o) && !sh[o].kind.Immortal?
    ensures Spares(sh, h, Destroy(sh, h, o), {})
    decreases Held(h.cells), 1, 0
  {
    var h0 := h.(finalized := h.finalized + [o]);
    var h1 := if sh[o].trivial then h0 else ClearFrom(sh, h0, o, 0);
    SparesItself(sh, h0, {o});
    if !sh[o].trivial { ClearSpares(sh, h0, o, 0); }
    DisposeSpares(sh, h, h0, h1, o);
  }

  lemma {:induction false} DisposeSpares(sh: Shapes, h: Heap, h0: Heap, h1: Heap, o: Addr)
    requires |sh| == |h.cells| && IsLive(h, o) && !sh[o].kind.Immortal?
    requires h0 == h.(finalized := h.finalized + [o]) && Shrinks(h0, h1) && Spares(sh, h0, h1, {o})
    ensures Spares(sh, h, Dispose(sh, h1, o), {})
  {
    var r := Dispose(sh, h1, o);
    assert !IsLive(r, o);
    forall y, j | 0 <= y < |sh| && IsLive(r, y) && 0 <= j < |h.cells[y].slots| && j < |r.cells[y].slots|
      ensures Left(sh, h, r, y, j, h.cells[y].slots[j], r.cells[y].slots[j])
    {
      assert y != o && IsLive(h1, y);
      assert Left(sh, h0, h1, y, j, h0.cells[y].slots[j], h1.cells[y].slots[j]);
    }
  }

  lemma {:induction false} ClearSpares(sh: Shapes, h: Heap, o: Addr, i: nat)
    requires |sh| == |h.cells| && o < |h.cells| && i <= |h.cells[o].slots|
    ensures Spares(sh, h, ClearFrom(sh, h, o, i), {o})
    decreases Held(h.cells), 0, |h.cells[o].slots| - i
  {
    hide Spares;
    if i == |h.cells[o].slots| {
      SparesItself(sh, h, {o});
    } else {
      var was := h.cells[o].slots[i];
      if was == NIL {
        ClearSpares(sh, h, o, i + 1);
      } else {
        var h1 := SetSlot(h, o, i, NIL);
        var h2 := Drop(sh, h1, was);
        assert Shrinks(h1, h2);
        ShrinksTransitive(h, h1, h2);
        DropSpares(sh, h1, was);
        SlotSpares(sh, h, o, i, h2);
        ClearSpares(sh, h2, o, i + 1);
        SparesComposes(sh, h, h2, ClearFrom(sh, h2, o, i + 1), {o});
      }
    }
  }

  lemma {:induction false} SlotSpares(sh: Shapes, h: Heap, o: Addr, i: nat, r: Heap)
    requires |sh| == |h.cells| && o < |h.cells| && i < |h.cells[o].slots|
    requires Spares(sh, SetSlot(h, o, i, NIL), r, {})
    ensures Spares(sh, h, r, {o})
  {
    var h1 := SetSlot(h, o, i, NIL);
    assert Died(h, r) == Died(h1, r);
    forall y, j | 0 <= y < |sh| && y != o && IsLive(r, y) && 0 <= j < |h.cells[y].slots| && j < |r.cells[y].slots|
      ensures Left(sh, h, r, y, j, h.cells[y].slots[j], r.cells[y].slots[j])
    {
      assert Left(sh, h1, r, y, j, h1.cells[y].slots[j], r.cells[y].slots[j]);
    }
  }

  lemma {:induction false} DropSpares(sh: Shapes, h: Heap, x: Addr)
    requires |sh| == |h.cells|
    ensures Spares(sh, h, Drop(sh, h, x), {})
    decreases Held(h.cells), 3, 0
  {
    if IsLive(h, x) && sh[x].kind.Embedded? {
      DestroySpares(sh, h, x);
    } else {
      ReleaseSpares(sh, h, x);
    }
  }

  /** If a release destroys anything, it begins with the object released. */
  lemma {:induction false} ReleasedGoesFirst(sh: Shapes, h: Heap, o: Addr)
    requires |sh| == |h.cells| && New(h, Release(sh, h, o)) != []
    ensures New(h, Release(sh, h, o))[0] == o
  {
    hide Traced, Shrinks, ClearFrom, Dispose;
    var h0 := SetRc(h, o, 0).(finalized := h.finalized + [o]);
    ReleaseTraced(sh, h, o);
    if !Unmanaged(sh, h, o) && h.cells[o].rc == 1 {
      var h1 := if sh[o].trivial then h0 else ClearFrom(sh, h0, o, 0);
      SelfTraced(sh, h0);
      if !sh[o].trivial { ClearTraced(sh, h0, o, 0); }
      ShrinksItself(h0);
      DisposeTraced(sh, SetRc(h, o, 0), h0, h1, o);
    }
  }

  lemma ShrinksItself(h: Heap)
    ensures Shrinks(h, h)
  {
  }
}

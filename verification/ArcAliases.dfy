/** What aliases of embedded objects can do: concrete heaps with exact counts in which an embedded object ends
    under its live parent, or is finalized twice. */
module ArcAliases {
  import opened Arc
  import opened ArcInvariant
  import opened ArcLog
  import opened ArcFate
  import opened ArcStore

  // ---------------------------------------------------------------- stepping through a cascade

  function Log(h: Heap, o: Addr): Heap {
    h.(finalized := h.finalized + [o])
  }

  lemma {:induction false} ReleaseEnds(sh: Shapes, h: Heap, o: Addr)
    requires |sh| == |h.cells| && IsLive(h, o) && !sh[o].kind.Immortal? && !OwnerHolds(sh, h, o) && h.cells[o].rc == 1
    ensures Release(sh, h, o) == Destroy(sh, SetRc(h, o, 0), o)
  {
  }

  lemma {:induction false} ReleaseGoesOn(sh: Shapes, h: Heap, o: Addr)
    requires |sh| == |h.cells| && IsLive(h, o) && !sh[o].kind.Immortal? && !OwnerHolds(sh, h, o) && h.cells[o].rc > 1
    ensures Release(sh, h, o) == SetRc(h, o, h.cells[o].rc - 1)
  {
  }

  lemma {:induction false} DestroyClears(sh: Shapes, h: Heap, o: Addr)
    requires |sh| == |h.cells| && IsLive(h, o) && !sh[o].trivial
    ensures Destroy(sh, h, o) == Dispose(sh, ClearFrom(sh, Log(h, o), o, 0), o)
  {
  }

  /** One turn of the clearing loop at a slot that holds a live embedded object, anything else, or nil. */
  lemma {:induction false} TurnDestroys(sh: Shapes, h: Heap, o: Addr, i: nat)
    requires |sh| == |h.cells| && o < |h.cells| && i < |h.cells[o].slots| && h.cells[o].slots[i] != NIL
    requires IsLive(h, h.cells[o].slots[i]) && sh[h.cells[o].slots[i]].kind.Embedded?
    ensures IsLive(SetSlot(h, o, i, NIL), h.cells[o].slots[i])
    ensures ClearFrom(sh, h, o, i) ==
            ClearFrom(sh, Destroy(sh, SetSlot(h, o, i, NIL), h.cells[o].slots[i]), o, i + 1)
  {
  }

  lemma {:induction false} TurnReleases(sh: Shapes, h: Heap, o: Addr, i: nat)
    requires |sh| == |h.cells| && o < |h.cells| && i < |h.cells[o].slots| && h.cells[o].slots[i] != NIL
    requires !(IsLive(h, h.cells[o].slots[i]) && sh[h.cells[o].slots[i]].kind.Embedded?)
    ensures ClearFrom(sh, h, o, i) ==
            ClearFrom(sh, Release(sh, SetSlot(h, o, i, NIL), h.cells[o].slots[i]), o, i + 1)
  {
  }

  lemma {:induction false} TurnPasses(sh: Shapes, h: Heap, o: Addr, i: nat)
    requires |sh| == |h.cells| && o < |h.cells| && i < |h.cells[o].slots| && h.cells[o].slots[i] == NIL
    ensures ClearFrom(sh, h, o, i) == ClearFrom(sh, h, o, i + 1)
  {
  }

  lemma {:induction false} LoopEnds(sh: Shapes, h: Heap, o: Addr, i: nat)
    requires |sh| == |h.cells| && o < |h.cells| && i == |h.cells[o].slots|
    ensures ClearFrom(sh, h, o, i) == h
  {
  }

  // ---------------------------------------------------------------- three objects

  /** Objects 1 and 2 are ordinary, and 3 lies in 1, which owns it by its slot 0. */
  const SHAPES: Shapes := [Shape(Ordinary, false), Shape(Ordinary, false), Shape(Ordinary, false),
                           Shape(Embedded(1, 0), false)]

  function Three(p: Cell, q: Cell, e: Cell): Heap {
    Heap([Cell(false, 0, []), p, q, e], [], {})
  }

  lemma {:induction false} ThreeRefs(p: Cell, q: Cell, e: Cell)
    ensures Refs(Three(p, q, e).cells) == multiset(p.slots) + multiset(q.slots) + multiset(e.slots)
  {
    var c := Three(p, q, e).cells;
    var c3, c2, c1 := [c[0], c[1], c[2]], [c[0], c[1]], [c[0]];
    assert c[..3] == c3 && c3[..2] == c2 && c2[..1] == c1 && c1[..0] == [];
    assert Refs(c1) == multiset{};
    assert Refs(c2) == multiset(p.slots);
    assert Refs(c3) == multiset(p.slots) + multiset(q.slots);
  }

  lemma {:induction false} ThreeAreGood(p: Cell, q: Cell, e: Cell, ext: multiset<Addr>)
    requires p.live && q.live && e.live && e.rc == 1 && |p.slots| > 0 && p.slots[0] == 3
    requires forall v: Addr :: v in p.slots || v in q.slots || v in e.slots ==> v < 4
    requires forall x: Addr :: x in ext ==> x == 1 || x == 2
    requires var refs := multiset(p.slots) + multiset(q.slots) + multiset(e.slots);
             p.rc == ext[1] + refs[1] > 0 && q.rc == ext[2] + refs[2] > 0
    ensures Inv(SHAPES, Three(p, q, e), ext, {})
  {
    var sh, h := SHAPES, Three(p, q, e);
    ThreeRefs(p, q, e);
    hide Refs;
    forall x | 0 <= x < 4 ensures Counted(sh, h, ext, {}, x) && Owned(sh, h, {}, x) && GoodSlots(sh, h, x) {
      forall j | 0 <= j < |h.cells[x].slots| ensures MayHold(sh, h, h.cells[x].slots[j]) {
        assert h.cells[x].slots[j] in h.cells[x].slots;
      }
    }
  }

  /** Object 2 aliases the embedded object 3. Releasing 2 destroys 3, although 1 lives on and its owner slot held 3
      until then. */
  lemma {:induction false} AliasEndsTheOwned()
    ensures var sh, h := SHAPES, Three(Cell(true, 1, [3]), Cell(true, 1, [3]), Cell(true, 1, []));
            var r := Release(sh, h, 2);
            && Inv(sh, h, multiset{1, 2}, {}) && OwnerHolds(sh, h, 3)
            && r.finalized == [2, 3] && IsLive(r, 1) && r.cells[1].slots == [NIL] && !IsLive(r, 3)
  {
    hide Shrinks, Held, Release, Destroy, ClearFrom, Drop;
    var sh, h := SHAPES, Three(Cell(true, 1, [3]), Cell(true, 1, [3]), Cell(true, 1, []));
    ThreeAreGood(Cell(true, 1, [3]), Cell(true, 1, [3]), Cell(true, 1, []), multiset{1, 2});
    ReleaseEnds(sh, h, 2);
    DestroyClears(sh, SetRc(h, 2, 0), 2);
    var a := Log(SetRc(h, 2, 0), 2);
    TurnDestroys(sh, a, 2, 0);
    DestroyClears(sh, SetSlot(a, 2, 0, NIL), 3);
    var b := Log(SetSlot(a, 2, 0, NIL), 3);
    LoopEnds(sh, b, 3, 0);
    LoopEnds(sh, Dispose(sh, b, 3), 2, 1);
  }

  /** A caller holds 1, the embedded object 3 holds 2, and 2 aliases 3. Storing nil over the owner slot finalizes 3
      twice: it is met again while it is being destroyed. */
  lemma {:induction false} OverwrittenIsMetAgain()
    ensures var sh, h := SHAPES, Three(Cell(true, 1, [3]), Cell(true, 1, [3]), Cell(true, 1, [2]));
            var r := StoreStrong(sh, h, 1, 0, NIL);
            StoresOverOwned(sh, h, 1, 0, NIL, multiset{1}) && r.finalized == [3, 2, 3] && IsLive(r, 1)
  {
    hide Shrinks, Held, Release, Destroy, ClearFrom, Drop;
    var sh, h := SHAPES, Three(Cell(true, 1, [3]), Cell(true, 1, [3]), Cell(true, 1, [2]));
    ThreeAreGood(Cell(true, 1, [3]), Cell(true, 1, [3]), Cell(true, 1, [2]), multiset{1});
    var h2 := SetSlot(h, 1, 0, NIL);
    ReleaseEnds(sh, h2, 3);
    DestroyClears(sh, SetRc(h2, 3, 0), 3);
    var a := Log(SetRc(h2, 3, 0), 3);
    TurnReleases(sh, a, 3, 0);
    var b := SetSlot(a, 3, 0, NIL);
    ReleaseEnds(sh, b, 2);
    DestroyClears(sh, SetRc(b, 2, 0), 2);
    var c := Log(SetRc(b, 2, 0), 2);
    TurnDestroys(sh, c, 2, 0);
    DestroyClears(sh, SetSlot(c, 2, 0, NIL), 3);
    var d := Log(SetSlot(c, 2, 0, NIL), 3);
    TurnPasses(sh, d, 3, 0);
    LoopEnds(sh, d, 3, 1);
    LoopEnds(sh, Dispose(sh, d, 3), 2, 1);
    LoopEnds(sh, Dispose(sh, Dispose(sh, d, 3), 2), 3, 1);
  }

  /** Only the embedded object 3 holds its parent 1. The store takes the parent along, which is disposed, its block
      with it, while 3 is still being destroyed inside. */
  lemma {:induction false} OverwrittenOutlivesItsBlock()
    ensures var sh, h := SHAPES, Three(Cell(true, 1, [3]), Cell(true, 1, []), Cell(true, 1, [1]));
            var r := StoreStrong(sh, h, 1, 0, NIL);
            && StoresOverOwned(sh, h, 1, 0, NIL, multiset{2})
            && r.finalized == [3, 1] && !IsLive(r, 1) && r.strays == {3}
  {
    hide Shrinks, Held, Release, Destroy, ClearFrom, Drop;
    var sh, h := SHAPES, Three(Cell(true, 1, [3]), Cell(true, 1, []), Cell(true, 1, [1]));
    ThreeAreGood(Cell(true, 1, [3]), Cell(true, 1, []), Cell(true, 1, [1]), multiset{2});
    var h2 := SetSlot(h, 1, 0, NIL);
    ReleaseEnds(sh, h2, 3);
    DestroyClears(sh, SetRc(h2, 3, 0), 3);
    var a := Log(SetRc(h2, 3, 0), 3);
    TurnReleases(sh, a, 3, 0);
    var b := SetSlot(a, 3, 0, NIL);
    ReleaseEnds(sh, b, 1);
    DestroyClears(sh, SetRc(b, 1, 0), 1);
    var c := Log(SetRc(b, 1, 0), 1);
    TurnPasses(sh, c, 1, 0);
    LoopEnds(sh, c, 1, 1);
    assert Inside(sh, c, 1) == {3};
    var d := Dispose(sh, c, 1);
    LoopEnds(sh, d, 3, 1);
    assert Inside(sh, d, 3) == {};
  }

  /** Only the embedded object 3 holds its parent 1, which has an alias of it. The store takes the parent along, and
      the alias is met. */
  lemma {:induction false} OverwrittenTakesItsParent()
    ensures var sh, h := SHAPES, Three(Cell(true, 1, [3, 3]), Cell(true, 1, []), Cell(true, 1, [1]));
            var r := StoreStrong(sh, h, 1, 0, NIL);
            StoresOverOwned(sh, h, 1, 0, NIL, multiset{2}) && r.finalized == [3, 1, 3] && !IsLive(r, 1)
  {
    hide Shrinks, Held, Release, Destroy, ClearFrom, Drop;
    var sh, h := SHAPES, Three(Cell(true, 1, [3, 3]), Cell(true, 1, []), Cell(true, 1, [1]));
    ThreeAreGood(Cell(true, 1, [3, 3]), Cell(true, 1, []), Cell(true, 1, [1]), multiset{2});
    var h2 := SetSlot(h, 1, 0, NIL);
    ReleaseEnds(sh, h2, 3);
    DestroyClears(sh, SetRc(h2, 3, 0), 3);
    var a := Log(SetRc(h2, 3, 0), 3);
    TurnReleases(sh, a, 3, 0);
    var b := SetSlot(a, 3, 0, NIL);
    ReleaseEnds(sh, b, 1);
    ParentMeetsIt(sh, SetRc(b, 1, 0));
    LoopEnds(sh, Release(sh, b, 1), 3, 1);
  }

  /** Where an alias in 1 still holds 3, destroying 1 destroys it. */
  lemma {:induction false} ParentMeetsIt(sh: Shapes, h: Heap)
    requires sh == SHAPES && |h.cells| == 4 && IsLive(h, 1) && IsLive(h, 3)
    requires h.cells[1].slots == [NIL, 3] && h.cells[3].slots == [NIL]
    ensures var r := Destroy(sh, h, 1);
            && r.finalized == h.finalized + [1, 3] && |r.cells| == 4 && !IsLive(r, 1) && !IsLive(r, 3)
            && r.cells[3].slots == h.cells[3].slots
  {
    hide Shrinks, Held, Release, Destroy, ClearFrom, Drop;
    DestroyClears(sh, h, 1);
    var c := Log(h, 1);
    TurnPasses(sh, c, 1, 0);
    TurnDestroys(sh, c, 1, 1);
    DestroyClears(sh, SetSlot(c, 1, 1, NIL), 3);
    var d := Log(SetSlot(c, 1, 1, NIL), 3);
    TurnPasses(sh, d, 3, 0);
    LoopEnds(sh, d, 3, 1);
    LoopEnds(sh, Dispose(sh, d, 3), 1, 2);
  }

  // ---------------------------------------------------------------- four objects

  /** Objects 1 and 2 are ordinary, and 1 owns 3 and 4 by its slots 0 and 1. A caller holds 1. */
  const MORE: Shapes := SHAPES + [Shape(Embedded(1, 1), false)]

  function Four(q: Cell, e: seq<Addr>, x: seq<Addr>): Heap {
    Heap([Cell(false, 0, []), Cell(true, 1, [3, 4]), q, Cell(true, 1, e), Cell(true, 1, x)], [], {})
  }

  lemma {:induction false} FourRefs(q: Cell, e: seq<Addr>, x: seq<Addr>)
    ensures Refs(Four(q, e, x).cells) == multiset{3, 4} + multiset(q.slots) + multiset(e) + multiset(x)
  {
    var c := Four(q, e, x).cells;
    assert c[..4] == Three(c[1], q, c[3]).cells;
    ThreeRefs(c[1], q, c[3]);
  }

  lemma {:induction false} FourAreGood(q: Cell, e: seq<Addr>, x: seq<Addr>)
    requires q.live && forall v: Addr :: v in q.slots || v in e || v in x ==> 1 < v < 5
    requires q.rc == (multiset(q.slots) + multiset(e) + multiset(x))[2] > 0
    ensures Inv(MORE, Four(q, e, x), multiset{1}, {})
  {
    var sh, h := MORE, Four(q, e, x);
    assert CountsOk(sh, h, multiset{1}, {}) by {
      FourRefs(q, e, x);
      var refs := multiset(q.slots) + multiset(e) + multiset(x);
      assert 1 !in q.slots && 1 !in e && 1 !in x && 1 !in refs;
      assert multiset{3, 4} + multiset(q.slots) + multiset(e) + multiset(x) == multiset{3, 4} + refs;
      forall y | 0 <= y < 5 ensures Counted(sh, h, multiset{1}, {}, y) {}
    }
    hide Refs;
    forall y | 0 <= y < 5 ensures Owned(sh, h, {}, y) && GoodSlots(sh, h, y) {
      forall j | 0 <= j < |h.cells[y].slots| ensures MayHold(sh, h, h.cells[y].slots[j]) {
        assert h.cells[y].slots[j] in h.cells[y].slots;
      }
    }
  }

  /** The embedded object 4 holds 2, and 2 aliases it. Storing nil over the owner slot of 3, which aliases 4, spares
      the parent and finalizes 3 once, but meets 4 again. */
  lemma {:induction false} AnotherIsMetAgain()
    ensures var sh, h := MORE, Four(Cell(true, 1, [4]), [4], [2]);
            var r := StoreStrong(sh, h, 1, 0, NIL);
            && StoresOverOwned(sh, h, 1, 0, NIL, multiset{1})
            && r.finalized == [3, 4, 2, 4] && IsLive(r, 1)
  {
    hide Shrinks, Held, Release, Destroy, ClearFrom, Drop;
    var sh, h := MORE, Four(Cell(true, 1, [4]), [4], [2]);
    FourAreGood(Cell(true, 1, [4]), [4], [2]);
    var h2 := SetSlot(h, 1, 0, NIL);
    ReleaseEnds(sh, h2, 3);
    DestroyClears(sh, SetRc(h2, 3, 0), 3);
    var a := Log(SetRc(h2, 3, 0), 3);
    TurnDestroys(sh, a, 3, 0);
    LoopOfTwo(sh, SetSlot(a, 3, 0, NIL));
    LoopEnds(sh, Destroy(sh, SetSlot(a, 3, 0, NIL), 4), 3, 1);
  }

  /** Where 4 and 2 hold each other, destroying 4 meets it again. */
  lemma {:induction false} LoopOfTwo(sh: Shapes, h: Heap)
    requires sh == MORE && |h.cells| == 5 && IsLive(h, 2) && IsLive(h, 4) && h.cells[2].rc == 1
    requires h.cells[2].slots == [4] && h.cells[4].slots == [2]
    ensures var r := Destroy(sh, h, 4);
            && r.finalized == h.finalized + [4, 2, 4] && |r.cells| == 5 && !IsLive(r, 2) && !IsLive(r, 4)
            && r.cells[1].live == h.cells[1].live && r.cells[3] == h.cells[3]
            && (|h.cells[1].slots| == 2 ==> |r.cells[1].slots| == 2 && r.cells[1].slots[0] == h.cells[1].slots[0])
  {
    hide Shrinks, Held, Release, Destroy, ClearFrom, Drop;
    DestroyClears(sh, h, 4);
    var c := Log(h, 4);
    TurnReleases(sh, c, 4, 0);
    var d := SetSlot(c, 4, 0, NIL);
    ReleaseEnds(sh, d, 2);
    DestroyClears(sh, SetRc(d, 2, 0), 2);
    var f := Log(SetRc(d, 2, 0), 2);
    TurnDestroys(sh, f, 2, 0);
    DestroyClears(sh, SetSlot(f, 2, 0, NIL), 4);
    var k := Log(SetSlot(f, 2, 0, NIL), 4);
    TurnPasses(sh, k, 4, 0);
    LoopEnds(sh, k, 4, 1);
    LoopEnds(sh, Dispose(sh, k, 4), 2, 1);
    LoopEnds(sh, Dispose(sh, Dispose(sh, k, 4), 2), 4, 1);
  }

  /** No condition on which objects hold which is exact for the other objects: here only the order of the two slots
      of 3 decides whether 4 is finalized once or twice. */
  lemma {:induction false} OrderDecides()
    ensures var sh, h, h' := MORE, Four(Cell(true, 2, [4]), [4, 2], [2]), Four(Cell(true, 2, [4]), [2, 4], [2]);
            && StoresOverOwned(sh, h, 1, 0, NIL, multiset{1}) && StoresOverOwned(sh, h', 1, 0, NIL, multiset{1})
            && (forall y: Addr, x: Addr :: Holds(h, y, x) <==> Holds(h', y, x))
            && StoreStrong(sh, h, 1, 0, NIL).finalized == [3, 4, 2]
            && StoreStrong(sh, h', 1, 0, NIL).finalized == [3, 4, 2, 4]
  {
    hide StoreStrong, Inv;
    FourAreGood(Cell(true, 2, [4]), [4, 2], [2]);
    FourAreGood(Cell(true, 2, [4]), [2, 4], [2]);
    OnceInThisOrder();
    TwiceInThatOrder();
  }

  lemma {:induction false} OnceInThisOrder()
    ensures StoreStrong(MORE, Four(Cell(true, 2, [4]), [4, 2], [2]), 1, 0, NIL).finalized == [3, 4, 2]
  {
    hide Shrinks, Held, Release, Destroy, ClearFrom, Drop;
    var sh, h := MORE, Four(Cell(true, 2, [4]), [4, 2], [2]);
    var h2 := SetSlot(h, 1, 0, NIL);
    ReleaseEnds(sh, h2, 3);
    DestroyClears(sh, SetRc(h2, 3, 0), 3);
    var a := Log(SetRc(h2, 3, 0), 3);
    TurnDestroys(sh, a, 3, 0);
    DestroyClears(sh, SetSlot(a, 3, 0, NIL), 4);
    var b := Log(SetSlot(a, 3, 0, NIL), 4);
    TurnReleases(sh, b, 4, 0);
    ReleaseGoesOn(sh, SetSlot(b, 4, 0, NIL), 2);
    var c := SetRc(SetSlot(b, 4, 0, NIL), 2, 1);
    LoopEnds(sh, c, 4, 1);
    var d := Dispose(sh, c, 4);
    TurnReleases(sh, d, 3, 1);
    ReleaseEnds(sh, SetSlot(d, 3, 1, NIL), 2);
    PassesTheDead(sh, SetRc(SetSlot(d, 3, 1, NIL), 2, 0));
    LoopEnds(sh, Release(sh, SetSlot(d, 3, 1, NIL), 2), 3, 2);
  }

  /** Destroying 2 after 4 is gone takes nothing along. */
  lemma {:induction false} PassesTheDead(sh: Shapes, h: Heap)
    requires sh == MORE && |h.cells| == 5 && IsLive(h, 2) && !IsLive(h, 4) && h.cells[2].slots == [4]
    ensures var r := Destroy(sh, h, 2);
            r.finalized == h.finalized + [2] && |r.cells| == 5 && r.cells[3] == h.cells[3] && r.cells[1] == h.cells[1]
  {
    hide Shrinks, Held, Release, Destroy, ClearFrom, Drop;
    DestroyClears(sh, h, 2);
    var f := Log(h, 2);
    TurnReleases(sh, f, 2, 0);
    UnmanagedStays(sh, SetSlot(f, 2, 0, NIL), 4);
    LoopEnds(sh, SetSlot(f, 2, 0, NIL), 2, 1);
  }

  lemma {:induction false} TwiceInThatOrder()
    ensures StoreStrong(MORE, Four(Cell(true, 2, [4]), [2, 4], [2]), 1, 0, NIL).finalized == [3, 4, 2, 4]
  {
    hide Shrinks, Held, Release, Destroy, ClearFrom, Drop;
    var sh, h := MORE, Four(Cell(true, 2, [4]), [2, 4], [2]);
    var h2 := SetSlot(h, 1, 0, NIL);
    ReleaseEnds(sh, h2, 3);
    DestroyClears(sh, SetRc(h2, 3, 0), 3);
    var a := Log(SetRc(h2, 3, 0), 3);
    TurnReleases(sh, a, 3, 0);
    ReleaseGoesOn(sh, SetSlot(a, 3, 0, NIL), 2);
    var b := SetRc(SetSlot(a, 3, 0, NIL), 2, 1);
    TurnDestroys(sh, b, 3, 1);
    LoopOfTwo(sh, SetSlot(b, 3, 1, NIL));
    LoopEnds(sh, Destroy(sh, SetSlot(b, 3, 1, NIL), 4), 3, 2);
  }
}

/** Which objects a cascade destroys. It follows slots one at a time; this module compares it with a
    definition that mentions no order: the least closed set. */
module ArcFate {
  import opened Arc
  import opened ArcInvariant
  import opened ArcLog

  ghost predicate Holds(h: Heap, y: Addr, x: Addr) {
    y < |h.cells| && x in h.cells[y].slots
  }

  /** `dead` contains every live ordinary object whose references all come from `dead`, every embedded object
      of its members, and every embedded object that a slot of a member aliases. `ext` counts the references
      from outside the heap. */
  ghost predicate Closed(sh: Shapes, h: Heap, ext: multiset<Addr>, dead: set<Addr>)
    requires |sh| == |h.cells|
  {
    && (forall x: Addr :: Abandoned(sh, h, ext, dead, x) ==> x in dead)
    && (forall x: Addr :: IsLive(h, x) && sh[x].kind.Embedded? && sh[x].kind.parent in dead ==> x in dead)
    && (forall y: Addr, x: Addr :: Holds(h, y, x) && y in dead && IsLive(h, x) && sh[x].kind.Embedded? ==> x in dead)
  }

  ghost predicate Abandoned(sh: Shapes, h: Heap, ext: multiset<Addr>, dead: set<Addr>, x: Addr)
    requires |sh| == |h.cells|
  {
    && IsLive(h, x) && sh[x].kind.Ordinary? && ext[x] == 0
    && forall y: Addr :: Holds(h, y, x) ==> y in dead
  }

  /** Outside `dead` nothing was disposed, and no slot changed but the owner slot of an embedded member to nil. */
  ghost predicate Untouched(sh: Shapes, before: Heap, after: Heap, dead: set<Addr>) {
    && |sh| == |before.cells| == |after.cells|
    && forall y :: 0 <= y < |sh| && y !in dead ==>
         && after.cells[y].live == before.cells[y].live
         && |after.cells[y].slots| == |before.cells[y].slots|
         && forall j :: 0 <= j < |before.cells[y].slots| ==>
              || after.cells[y].slots[j] == before.cells[y].slots[j]
              || (after.cells[y].slots[j] == NIL && GivenUp(sh, before.cells[y].slots[j], dead, y, j))
  }

  /** Slot `j` of `y` is the owner slot of the member `x`. */
  ghost predicate GivenUp(sh: Shapes, x: Addr, dead: set<Addr>, y: Addr, j: nat) {
    x in dead && x < |sh| && sh[x].kind == Embedded(y, j)
  }

  // ---------------------------------------------------------------- paths through slots

  /** Every object of `path` but the last is in `dead` and holds the next. */
  ghost predicate IsPath(h: Heap, dead: set<Addr>, path: seq<Addr>) {
    path != [] && forall k :: 0 <= k < |path| - 1 ==> path[k] in dead && Holds(h, path[k], path[k + 1])
  }

  ghost predicate IsPathFrom(h: Heap, dead: set<Addr>, path: seq<Addr>, x: Addr, y: Addr) {
    IsPath(h, dead, path) && path[0] == x && path[|path| - 1] == y
  }

  ghost predicate Leads(h: Heap, dead: set<Addr>, x: Addr, y: Addr) {
    exists path :: IsPathFrom(h, dead, path, x, y)
  }

  /** Slots lead from `x` back to `x` inside `dead`. */
  ghost predicate Loops(h: Heap, dead: set<Addr>, x: Addr) {
    exists path :: IsPathFrom(h, dead, path, x, x) && |path| > 1
  }

  lemma {:induction false} LeadsToItself(h: Heap, dead: set<Addr>, x: Addr)
    ensures Leads(h, dead, x, x)
  {
    assert IsPathFrom(h, dead, [x], x, x);
  }

  lemma {:induction false} PathExtends(h: Heap, dead: set<Addr>, path: seq<Addr>, x: Addr, y: Addr, z: Addr)
    requires IsPathFrom(h, dead, path, x, y) && y in dead && Holds(h, y, z)
    ensures IsPathFrom(h, dead, path + [z], x, z)
  {
    var longer := path + [z];
    forall k | 0 <= k < |longer| - 1 ensures longer[k] in dead && Holds(h, longer[k], longer[k + 1]) {
      if k < |path| - 1 {
        assert path[k] in dead && Holds(h, path[k], path[k + 1]);
      }
    }
  }

  lemma {:induction false} LeadsExtends(h: Heap, dead: set<Addr>, x: Addr, y: Addr, z: Addr)
    requires Leads(h, dead, x, y) && y in dead && Holds(h, y, z)
    ensures Leads(h, dead, x, z) && (x == z ==> Loops(h, dead, x))
  {
    var path :| IsPathFrom(h, dead, path, x, y);
    PathExtends(h, dead, path, x, y, z);
    assert |path + [z]| > 1;
  }

  /** A larger set has more paths in it. */
  lemma {:induction false} LoopsGrow(h: Heap, dead: set<Addr>, more: set<Addr>, x: Addr)
    requires Loops(h, dead, x) && dead <= more
    ensures Loops(h, more, x)
  {
    var path :| IsPathFrom(h, dead, path, x, x) && |path| > 1;
    forall k | 0 <= k < |path| - 1 ensures path[k] in more && Holds(h, path[k], path[k + 1]) {
      assert path[k] in dead && Holds(h, path[k], path[k + 1]);
    }
    assert IsPathFrom(h, more, path, x, x);
  }

  // ---------------------------------------------------------------- the cascade against a closed set

  /** The embedded objects in `clear` are on no loop inside `dead`. */
  ghost predicate Loopless(h: Heap, dead: set<Addr>, clear: set<Addr>) {
    forall x: Addr :: x in clear ==> !Loops(h, dead, x)
  }

  /** Objects that no cascade meets again while it destroys them. */
  ghost predicate Safe(sh: Shapes, clear: set<Addr>, x: Addr) {
    x < |sh| && (sh[x].kind.Embedded? ==> x in clear)
  }

  /** Each suspended destruction of an object in `clear` has come to `o` along slots. */
  ghost predicate Chained(h: Heap, dead: set<Addr>, dying: set<Addr>, clear: set<Addr>, o: Addr) {
    forall x: Addr :: x in dying && x in clear ==> Leads(h, dead, x, o)
  }

  ghost predicate StayLive(sh: Shapes, before: Heap, after: Heap, dying: set<Addr>, clear: set<Addr>) {
    forall x: Addr :: x in dying && Safe(sh, clear, x) && IsLive(before, x) ==> IsLive(after, x)
  }

  ghost predicate OnceEach(sh: Shapes, before: Heap, after: Heap, clear: set<Addr>) {
    forall x: Addr :: Safe(sh, clear, x) ==> Once(before, after, x)
  }

  /** No object in `clear` that its owner slot held in `h0` was left behind by its parent. */
  ghost predicate Housed(sh: Shapes, h0: Heap, before: Heap, after: Heap, clear: set<Addr>) {
    && |sh| == |h0.cells|
    && forall x: Addr :: x in clear && x in after.strays && OwnerHolds(sh, h0, x) ==> x in before.strays
  }

  /** What a part of a cascade from `h` to `r` promises against a set that was closed in `h0`. */
  ghost predicate Confined(sh: Shapes, h0: Heap, h: Heap, r: Heap, dying: set<Addr>, dead: set<Addr>,
                           clear: set<Addr>) {
    && Untouched(sh, h0, r, dead)
    && StayLive(sh, h, r, dying, clear)
    && OnceEach(sh, h, r, clear)
    && Housed(sh, h0, h, r, clear)
  }

  /** Where a part of a cascade may begin. */
  ghost predicate Begun(sh: Shapes, h0: Heap, h: Heap, ext: multiset<Addr>, dead: set<Addr>, clear: set<Addr>) {
    && |sh| == |h0.cells| && Shrinks(h0, h) && Closed(sh, h0, ext, dead) && Untouched(sh, h0, h, dead)
    && Loopless(h0, dead, clear)
  }

  lemma {:induction false} ReleaseConfined(sh: Shapes, h0: Heap, h: Heap, o: Addr, ext: multiset<Addr>,
                                           dying: set<Addr>, dead: set<Addr>, clear: set<Addr>)
    requires Inv(sh, h, ext + multiset{o}, dying) && Begun(sh, h0, h, ext, dead, clear)
    requires Chained(h0, dead, dying, clear, o)
    ensures Confined(sh, h0, h, Release(sh, h, o), dying, dead, clear)
    decreases Held(h.cells), 2, 0
  {
    hide CountsOk, OwnersOk, SlotsOk, HandlesOk, Refs, Begun, Chained, Confined;
    HandleIsCounted(sh, h, o, ext, dying);
    SetRcBegins(sh, h0, h, o, h.cells[o].rc - 1, ext, dead, clear);
    if h.cells[o].rc > 1 {
      SetRcConfined(sh, h0, h, o, h.cells[o].rc - 1, ext, dying, dead, clear);
    } else {
      var h1, r := SetRc(h, o, 0), Release(sh, h, o);
      LastRelease(sh, h, o, ext, dying);
      LastIsAbandoned(sh, h0, h, o, ext, dead, clear);
      ChainStarts(h0, dead, dying, clear, o);
      DestroyConfined(sh, h0, h1, o, ext, dying + {o}, dead, clear);
      assert (dying + {o}) - {o} == dying;
      RecountedConfined(sh, h0, h, o, r, dying, dead, clear);
    }
  }

  lemma {:induction false} SetRcBegins(sh: Shapes, h0: Heap, h: Heap, o: Addr, rc: nat, ext: multiset<Addr>,
                                       dead: set<Addr>, clear: set<Addr>)
    requires Begun(sh, h0, h, ext, dead, clear) && o < |h.cells| && rc <= h.cells[o].rc
    ensures Begun(sh, h0, SetRc(h, o, rc), ext, dead, clear)
  {
    hide Closed, Loopless;
    ShrinksTransitive(h0, h, SetRc(h, o, rc));
  }

  lemma {:induction false} SetRcConfined(sh: Shapes, h0: Heap, h: Heap, o: Addr, rc: nat, ext: multiset<Addr>,
                                         dying: set<Addr>, dead: set<Addr>, clear: set<Addr>)
    requires o < |sh| == |h.cells| && Begun(sh, h0, SetRc(h, o, rc), ext, dead, clear)
    ensures Confined(sh, h0, h, SetRc(h, o, rc), dying, dead, clear)
  {
    hide Closed, Loopless, Untouched;
    assert Died(h, SetRc(h, o, rc)) == {} && New(h, SetRc(h, o, rc)) == [];
  }

  lemma {:induction false} RecountedConfined(sh: Shapes, h0: Heap, h: Heap, o: Addr, r: Heap, dying: set<Addr>,
                                             dead: set<Addr>, clear: set<Addr>)
    requires o < |sh| == |h.cells| && Confined(sh, h0, SetRc(h, o, 0), r, dying, dead, clear)
    ensures Confined(sh, h0, h, r, dying, dead, clear)
  {
    hide Untouched;
    assert Died(SetRc(h, o, 0), r) == Died(h, r) && New(SetRc(h, o, 0), r) == New(h, r);
    forall x: Addr | Safe(sh, clear, x) ensures Once(h, r, x) {
      assert Once(SetRc(h, o, 0), r, x);
    }
  }

  lemma {:induction false} ChainStarts(h: Heap, dead: set<Addr>, dying: set<Addr>, clear: set<Addr>, o: Addr)
    requires Chained(h, dead, dying, clear, o)
    ensures Chained(h, dead, dying + {o}, clear, o)
  {
    LeadsToItself(h, dead, o);
  }

  /** The object that no slot holds any more is in every set that was closed, as slots of other objects
      have only lost embedded values. */
  lemma {:induction false} LastIsAbandoned(sh: Shapes, h0: Heap, h: Heap, o: Addr, ext: multiset<Addr>,
                                           dead: set<Addr>, clear: set<Addr>)
    requires Begun(sh, h0, h, ext, dead, clear)
    requires IsLive(h, o) && sh[o].kind.Ordinary? && ext[o] == 0
    requires forall y :: 0 <= y < |sh| ==> o !in h.cells[y].slots
    ensures o in dead
  {
    hide Loopless;
    forall y: Addr | Holds(h0, y, o) ensures y in dead {
      var j :| 0 <= j < |h0.cells[y].slots| && h0.cells[y].slots[j] == o;
      assert h.cells[y].slots[j] in h.cells[y].slots;
    }
    assert Abandoned(sh, h0, ext, dead, o);
  }

  lemma {:induction false} DestroyConfined(sh: Shapes, h0: Heap, h: Heap, o: Addr, ext: multiset<Addr>,
                                           dying: set<Addr>, dead: set<Addr>, clear: set<Addr>)
    requires Inv(sh, h, ext, dying) && o in dying && o in dead && IsLive(h, o)
    requires Begun(sh, h0, h, ext, dead, clear) && Chained(h0, dead, dying, clear, o)
    ensures Confined(sh, h0, h, Destroy(sh, h, o), dying - {o}, dead, clear)
    decreases Held(h.cells), 1, 0
  {
    hide CountsOk, OwnersOk, SlotsOk, Once, Closed, Loopless, Chained, Untouched;
    var h0' := h.(finalized := h.finalized + [o]);
    LogKeeps(sh, h, o, ext, dying);
    SelfTraced(sh, h0');
    assert Begun(sh, h0, h0', ext, dead, clear) by { LogBegun(sh, h0, h, o, ext, dead, clear); }
    var h1 := if sh[o].trivial then h0' else ClearFrom(sh, h0', o, 0);
    assert Confined(sh, h0, h0', h1, dying, dead, clear) && Traced(sh, h0', h1) by {
      if sh[o].trivial {
        SelfConfined(sh, h0, h0', dying, dead, clear);
      } else {
        ClearConfined(sh, h0, h0', o, 0, ext, dying, dead, clear);
        ClearTraced(sh, h0', o, 0);
      }
    }
    ShrinksTransitive(h0, h0', h1);
    DisposeUntouched(sh, h0, h1, o, dead);
    assert Inv(sh, h1, ext, dying) && forall j :: 0 <= j < |h1.cells[o].slots| ==> h1.cells[o].slots[j] == NIL by {
      if sh[o].trivial {
        TrivialIsEmpty(sh, h0', o, ext, dying);
      } else {
        ClearKeeps(sh, h0', o, 0, ext, dying);
      }
    }
    DisposeHoused(sh, h0, h0', h1, o, ext, dying, dead, clear);
    DisposeOnce(sh, h, h0', h1, o, dying, clear);
  }

  lemma {:induction false} LogBegun(sh: Shapes, h0: Heap, h: Heap, o: Addr, ext: multiset<Addr>, dead: set<Addr>,
                                    clear: set<Addr>)
    requires Begun(sh, h0, h, ext, dead, clear)
    ensures Begun(sh, h0, h.(finalized := h.finalized + [o]), ext, dead, clear)
  {
    hide Closed, Loopless;
  }

  lemma {:induction false} SelfConfined(sh: Shapes, h0: Heap, h: Heap, dying: set<Addr>, dead: set<Addr>,
                                        clear: set<Addr>)
    requires |sh| == |h.cells| && Untouched(sh, h0, h, dead)
    ensures Confined(sh, h0, h, h, dying, dead, clear)
  {
    assert Died(h, h) == {} && New(h, h) == [];
  }

  /** Disposing a member touches only it and, for an embedded one, the owner slot that still holds it. */
  lemma {:induction false} DisposeUntouched(sh: Shapes, h0: Heap, h: Heap, o: Addr, dead: set<Addr>)
    requires |sh| == |h0.cells| && Shrinks(h0, h) && o < |sh| && Untouched(sh, h0, h, dead) && o in dead
    ensures Untouched(sh, h0, Dispose(sh, h, o), dead)
  {
    hide Held;
    var r := Dispose(sh, h, o);
    forall y, j | 0 <= y < |sh| && y !in dead && 0 <= j < |h0.cells[y].slots|
      ensures r.cells[y].slots[j] == h0.cells[y].slots[j]
              || (r.cells[y].slots[j] == NIL && GivenUp(sh, h0.cells[y].slots[j], dead, y, j))
    {
      assert h.cells[y].slots[j] == h0.cells[y].slots[j] || h.cells[y].slots[j] == NIL;
    }
  }

  lemma {:induction false} TrivialIsEmpty(sh: Shapes, h: Heap, o: Addr, ext: multiset<Addr>, dying: set<Addr>)
    requires Inv(sh, h, ext, dying) && IsLive(h, o) && sh[o].trivial
    ensures h.cells[o].slots == []
  {
    assert GoodSlots(sh, h, o);
  }

  /** What still lies in an emptied object is being destroyed, which has come to that object along slots, and its
      owner slot leads back. */
  lemma {:induction false} DisposeHoused(sh: Shapes, h0: Heap, h: Heap, h1: Heap, o: Addr, ext: multiset<Addr>,
                                         dying: set<Addr>, dead: set<Addr>, clear: set<Addr>)
    requires Inv(sh, h1, ext, dying) && o < |sh| && o in dead && Housed(sh, h0, h, h1, clear)
    requires forall j :: 0 <= j < |h1.cells[o].slots| ==> h1.cells[o].slots[j] == NIL
    requires Loopless(h0, dead, clear) && Chained(h0, dead, dying, clear, o)
    ensures Housed(sh, h0, h, Dispose(sh, h1, o), clear)
  {
    hide CountsOk, SlotsOk, HandlesOk, Loops, Leads;
    forall x: Addr | x in clear && x in Dispose(sh, h1, o).strays && OwnerHolds(sh, h0, x) ensures x in h.strays {
      if x !in h1.strays {
        assert Owned(sh, h1, dying, x);
        LeadsExtends(h0, dead, x, o, x);
      }
    }
  }

  lemma {:induction false} DisposeOnce(sh: Shapes, h: Heap, h0: Heap, h1: Heap, o: Addr, dying: set<Addr>,
                                       clear: set<Addr>)
    requires |sh| == |h.cells| && IsLive(h, o) && !sh[o].kind.Immortal? && o in dying
    requires h0 == h.(finalized := h.finalized + [o]) && Shrinks(h0, h1) && Traced(sh, h0, h1)
    requires StayLive(sh, h0, h1, dying, clear) && OnceEach(sh, h0, h1, clear)
    ensures var r := Dispose(sh, h1, o); StayLive(sh, h, r, dying - {o}, clear) && OnceEach(sh, h, r, clear)
  {
    var r := Dispose(sh, h1, o);
    DisposeTraced(sh, h, h0, h1, o);
    forall x: Addr | Safe(sh, clear, x) ensures Once(h, r, x) {
      assert Once(h0, h1, x);
    }
  }

  lemma {:induction false} ClearConfined(sh: Shapes, h0: Heap, h: Heap, o: Addr, i: nat, ext: multiset<Addr>,
                                         dying: set<Addr>, dead: set<Addr>, clear: set<Addr>)
    requires Inv(sh, h, ext, dying) && o in dead && o < |sh|
    requires i <= |h.cells[o].slots| && forall j :: 0 <= j < i ==> h.cells[o].slots[j] == NIL
    requires Begun(sh, h0, h, ext, dead, clear) && Chained(h0, dead, dying, clear, o)
    ensures Confined(sh, h0, h, ClearFrom(sh, h, o, i), dying, dead, clear)
    decreases Held(h.cells), 0, |h.cells[o].slots| - i
  {
    hide Inv, Begun, Chained, Confined, Refs, Drop;
    assert |sh| == |h0.cells| && Untouched(sh, h0, h, dead) by { BegunIs(sh, h0, h, ext, dead, clear); }
    if i == |h.cells[o].slots| {
      SelfConfined(sh, h0, h, dying, dead, clear);
    } else if h.cells[o].slots[i] == NIL {
      ClearConfined(sh, h0, h, o, i + 1, ext, dying, dead, clear);
    } else {
      var h1 := SetSlot(h, o, i, NIL);
      var h2 := Drop(sh, h1, h.cells[o].slots[i]);
      DropKeeps(sh, h, o, i, ext, dying);
      ShrinksTransitive(h, h1, h2);
      assert forall j :: 0 <= j < i + 1 ==> h1.cells[o].slots[j] == NIL;
      DropConfined(sh, h0, h, o, i, ext, dying, dead, clear);
      ConfinedBegins(sh, h0, h, h1, h2, ext, dying, dead, clear);
      ClearConfined(sh, h0, h2, o, i + 1, ext, dying, dead, clear);
      ClearComposes(sh, h0, h, o, i, dying, dead, clear);
    }
  }

  lemma {:induction false} BegunIs(sh: Shapes, h0: Heap, h: Heap, ext: multiset<Addr>, dead: set<Addr>,
                                   clear: set<Addr>)
    requires Begun(sh, h0, h, ext, dead, clear)
    ensures |sh| == |h0.cells| && Untouched(sh, h0, h, dead)
  {
  }

  lemma {:induction false} ConfinedBegins(sh: Shapes, h0: Heap, h: Heap, h1: Heap, r: Heap, ext: multiset<Addr>,
                                          dying: set<Addr>, dead: set<Addr>, clear: set<Addr>)
    requires Begun(sh, h0, h, ext, dead, clear) && Shrinks(h, r) && Confined(sh, h0, h1, r, dying, dead, clear)
    ensures Begun(sh, h0, r, ext, dead, clear)
  {
    hide Closed, Loopless;
    ShrinksTransitive(h0, h, r);
  }

  lemma {:induction false} ClearComposes(sh: Shapes, h0: Heap, h: Heap, o: Addr, i: nat, dying: set<Addr>,
                                         dead: set<Addr>, clear: set<Addr>)
    requires o < |sh| == |h.cells| && i < |h.cells[o].slots| && h.cells[o].slots[i] != NIL
    requires var h1 := SetSlot(h, o, i, NIL);
             var h2 := Drop(sh, h1, h.cells[o].slots[i]);
             Confined(sh, h0, h1, h2, dying, dead, clear) &&
             Confined(sh, h0, h2, ClearFrom(sh, h2, o, i + 1), dying, dead, clear)
    ensures Confined(sh, h0, h, ClearFrom(sh, h, o, i), dying, dead, clear)
  {
    hide Untouched, Once;
    var h1 := SetSlot(h, o, i, NIL);
    var h2 := Drop(sh, h1, h.cells[o].slots[i]);
    var r := ClearFrom(sh, h2, o, i + 1);
    DropTraced(sh, h1, h.cells[o].slots[i]);
    ClearTraced(sh, h2, o, i + 1);
    forall x: Addr | Safe(sh, clear, x) ensures Once(h, r, x) {
      OnceComposes(h1, h2, r, x);
      SetSlotOnce(h, o, i, r, x);
    }
  }

  lemma {:induction false} SetSlotOnce(h: Heap, o: Addr, i: nat, r: Heap, x: Addr)
    requires o < |h.cells| && i < |h.cells[o].slots| && Once(SetSlot(h, o, i, NIL), r, x)
    ensures Once(h, r, x)
  {
    assert Died(SetSlot(h, o, i, NIL), r) == Died(h, r) && New(SetSlot(h, o, i, NIL), r) == New(h, r);
  }

  lemma {:induction false} DropConfined(sh: Shapes, h0: Heap, h: Heap, o: Addr, i: nat, ext: multiset<Addr>,
                                        dying: set<Addr>, dead: set<Addr>, clear: set<Addr>)
    requires Inv(sh, h, ext, dying) && o in dead && o < |sh|
    requires i < |h.cells[o].slots| && h.cells[o].slots[i] != NIL
    requires Begun(sh, h0, h, ext, dead, clear) && Chained(h0, dead, dying, clear, o)
    ensures var h1 := SetSlot(h, o, i, NIL);
            Confined(sh, h0, h1, Drop(sh, h1, h.cells[o].slots[i]), dying, dead, clear)
    decreases Held(SetSlot(h, o, i, NIL).cells), 3, 0
  {
    hide CountsOk, OwnersOk, SlotsOk, HandlesOk, Begun, Chained, Confined, Refs;
    var was, h1 := h.cells[o].slots[i], SetSlot(h, o, i, NIL);
    TakeKeeps(sh, h, o, i, ext, dying);
    TakeBegins(sh, h0, h, o, i, ext, dead, clear);
    ChainGrows(h0, dead, dying, clear, o, was);
    if sh[was].kind.Ordinary? {
      ReleaseConfined(sh, h0, h1, was, ext, dying, dead, clear);
    } else if IsLive(h1, was) && sh[was].kind.Embedded? {
      AliasDies(sh, h0, ext, dead, o, was);
      NotMetAgain(h0, dead, dying, clear, o, was);
      DestroyConfined(sh, h0, h1, was, ext, dying + {was}, dead, clear);
      ConfinedWith(sh, h0, h1, Destroy(sh, h1, was), dying, dead, clear, was);
    } else {
      BegunIs(sh, h0, h1, ext, dead, clear);
      SelfConfined(sh, h0, h1, dying, dead, clear);
    }
  }

  lemma {:induction false} TakeBegins(sh: Shapes, h0: Heap, h: Heap, o: Addr, i: nat, ext: multiset<Addr>,
                                      dead: set<Addr>, clear: set<Addr>)
    requires Begun(sh, h0, h, ext, dead, clear) && o in dead && o < |h.cells|
    requires i < |h.cells[o].slots| && h.cells[o].slots[i] != NIL
    ensures Begun(sh, h0, SetSlot(h, o, i, NIL), ext, dead, clear)
    ensures Holds(h0, o, h.cells[o].slots[i])
    ensures |sh| == |h0.cells| == |h.cells|
    ensures Closed(sh, h0, ext, dead) && Loopless(h0, dead, clear)
    ensures IsLive(h, h.cells[o].slots[i]) ==> IsLive(h0, h.cells[o].slots[i])
  {
    hide Closed, Loopless;
    ShrinksTransitive(h0, h, SetSlot(h, o, i, NIL));
    assert h0.cells[o].slots[i] == h.cells[o].slots[i];
  }

  lemma {:induction false} ChainGrows(h: Heap, dead: set<Addr>, dying: set<Addr>, clear: set<Addr>, o: Addr, x: Addr)
    requires Chained(h, dead, dying, clear, o) && o in dead && Holds(h, o, x)
    ensures Chained(h, dead, dying, clear, x) && Chained(h, dead, dying + {x}, clear, x)
  {
    forall z: Addr | z in dying && z in clear ensures Leads(h, dead, z, x) {
      LeadsExtends(h, dead, z, o, x);
    }
    LeadsToItself(h, dead, x);
  }

  lemma {:induction false} NotMetAgain(h: Heap, dead: set<Addr>, dying: set<Addr>, clear: set<Addr>, o: Addr, x: Addr)
    requires Chained(h, dead, dying, clear, o) && Loopless(h, dead, clear) && o in dead && Holds(h, o, x)
    ensures !(x in dying && x in clear)
  {
    if x in dying && x in clear {
      LeadsExtends(h, dead, x, o, x);
    }
  }

  lemma {:induction false} ConfinedWith(sh: Shapes, h0: Heap, h: Heap, r: Heap, dying: set<Addr>, dead: set<Addr>,
                                        clear: set<Addr>, x: Addr)
    requires Confined(sh, h0, h, r, (dying + {x}) - {x}, dead, clear)
    requires x < |sh| && sh[x].kind.Embedded? && !(x in dying && x in clear)
    ensures Confined(sh, h0, h, r, dying, dead, clear)
  {
    hide Untouched, Once;
  }

  lemma {:induction false} AliasDies(sh: Shapes, h: Heap, ext: multiset<Addr>, dead: set<Addr>, y: Addr, x: Addr)
    requires |sh| == |h.cells| && Closed(sh, h, ext, dead)
    requires y in dead && Holds(h, y, x) && IsLive(h, x) && sh[x].kind.Embedded?
    ensures x in dead
  {
  }

  // ---------------------------------------------------------------- what a cascade destroys

  /** From `h` to `r` exactly the least closed set that contains `first` died. The log has each of its members. An
      embedded object is in it once and gone before its parent is, unless slots inside the set lead back to it. */
  ghost predicate LeastDied(sh: Shapes, h: Heap, r: Heap, ext: multiset<Addr>, first: set<Addr>)
    requires |sh| == |h.cells|
  {
    && Closed(sh, h, ext, Died(h, r)) && first <= Died(h, r)
    && (forall dead :: Closed(sh, h, ext, dead) && first <= dead ==> Died(h, r) <= dead)
    && Untouched(sh, h, r, Died(h, r))
    && Logged(h, r)
    && forall x: Addr :: x < |sh| && (sh[x].kind.Embedded? ==> !Loops(h, Died(h, r), x)) ==>
         Once(h, r, x) && (OwnerHolds(sh, h, x) && x in r.strays ==> x in h.strays)
  }

  /** Whatever survives into a state with exact counts is held by something that survives, and what the dead
      held of embedded objects is dead. */
  lemma {:induction false} SurvivorsAreHeld(sh: Shapes, h: Heap, r: Heap, ext: multiset<Addr>)
    requires |sh| == |h.cells| && Shrinks(h, r) && Swept(sh, h, r) && Inv(sh, r, ext, {}) && !IsLive(h, NIL)
    ensures Closed(sh, h, ext, Died(h, r))
  {
    hide Swept, Refs;
    var died := Died(h, r);
    forall x: Addr | Abandoned(sh, h, ext, died, x) ensures x in died {
      if IsLive(r, x) {
        SurvivorIsHeld(sh, h, r, ext, x);
      }
    }
    forall x: Addr | IsLive(h, x) && sh[x].kind.Embedded? && sh[x].kind.parent in died ensures x in died {
      assert Owned(sh, r, {}, x);
    }
    forall y: Addr, x: Addr | Holds(h, y, x) && y in died && IsLive(h, x) && sh[x].kind.Embedded? ensures x in died {
      TakenIsGone(sh, h, r, y, x);
    }
  }

  lemma {:induction false} SurvivorIsHeld(sh: Shapes, h: Heap, r: Heap, ext: multiset<Addr>, x: Addr)
    requires |sh| == |h.cells| && Shrinks(h, r) && Inv(sh, r, ext, {})
    requires IsLive(r, x) && sh[x].kind.Ordinary? && ext[x] == 0
    ensures exists y :: Holds(h, y, x) && y !in Died(h, r)
  {
    assert Counted(sh, r, ext, {}, x);
    RefsMember(r.cells, x);
    var y :| 0 <= y < |r.cells| && x in r.cells[y].slots;
    assert GoodSlots(sh, r, y);
    var j :| 0 <= j < |r.cells[y].slots| && r.cells[y].slots[j] == x;
    assert h.cells[y].slots[j] == x;
    assert Holds(h, y, x);
  }

  lemma {:induction false} TakenIsGone(sh: Shapes, h: Heap, r: Heap, y: Addr, x: Addr)
    requires |sh| == |h.cells| && Shrinks(h, r) && Swept(sh, h, r) && |sh| == |r.cells| && SlotsOk(sh, r)
    requires Holds(h, y, x) && y in Died(h, r) && IsLive(h, x) && sh[x].kind.Embedded? && x != NIL
    ensures x in Died(h, r)
  {
    var j :| 0 <= j < |h.cells[y].slots| && h.cells[y].slots[j] == x;
    assert GoodSlots(sh, r, y);
    assert Gone(sh, h, r, h.cells[y].slots[j], r.cells[y].slots[j]);
  }

  /** No closed set with `first` in it is left by the cascade, and what is on no loop inside it ends once. */
  ghost predicate Bounded(sh: Shapes, h: Heap, r: Heap, ext: multiset<Addr>, first: set<Addr>) {
    forall dead: set<Addr>, clear: set<Addr> :: Begun(sh, h, h, ext, dead, clear) && first <= dead ==>
      Confined(sh, h, h, r, {}, dead, clear)
  }

  lemma {:induction false} BeginsHere(sh: Shapes, h: Heap, ext: multiset<Addr>, dead: set<Addr>, clear: set<Addr>)
    requires |sh| == |h.cells| && Closed(sh, h, ext, dead) && Loopless(h, dead, clear)
    ensures Begun(sh, h, h, ext, dead, clear)
  {
  }

  lemma {:induction false} BoundedDies(sh: Shapes, h: Heap, r: Heap, ext: multiset<Addr>, first: set<Addr>,
                                       dead: set<Addr>)
    requires |sh| == |h.cells| && Bounded(sh, h, r, ext, first) && Closed(sh, h, ext, dead) && first <= dead
    ensures Died(h, r) <= dead && Untouched(sh, h, r, dead)
  {
    hide Closed;
    BeginsHere(sh, h, ext, dead, {});
    assert Confined(sh, h, h, r, {}, dead, {});
  }

  lemma {:induction false} BoundedOnce(sh: Shapes, h: Heap, r: Heap, ext: multiset<Addr>, first: set<Addr>,
                                       dead: set<Addr>, x: Addr)
    requires |sh| == |h.cells| && Bounded(sh, h, r, ext, first) && Closed(sh, h, ext, dead) && first <= dead
    requires x < |sh| && !Loops(h, dead, x)
    ensures Once(h, r, x) && (OwnerHolds(sh, h, x) && x in r.strays ==> x in h.strays)
  {
    hide Closed, Untouched, Once, Loops;
    assert Loopless(h, dead, {x});
    BeginsHere(sh, h, ext, dead, {x});
    assert Confined(sh, h, h, r, {}, dead, {x});
    assert Safe(sh, {x}, x);
  }

  lemma {:induction false} BoundedCounted(sh: Shapes, h: Heap, r: Heap, ext: multiset<Addr>, first: set<Addr>,
                                           dead: set<Addr>, x: Addr)
    requires |sh| == |h.cells| && Bounded(sh, h, r, ext, first) && Closed(sh, h, ext, dead) && first <= dead
    requires x < |sh| && !sh[x].kind.Embedded?
    ensures Once(h, r, x)
  {
    hide Closed, Untouched, Once;
    BeginsHere(sh, h, ext, dead, {});
    assert Confined(sh, h, h, r, {}, dead, {});
    assert Safe(sh, {}, x);
  }

  lemma {:induction false} LeastFrom(sh: Shapes, h: Heap, r: Heap, ext: multiset<Addr>, first: set<Addr>)
    requires |sh| == |h.cells| && Shrinks(h, r) && Traced(sh, h, r) && Inv(sh, r, ext, {}) && !IsLive(h, NIL)
    requires Bounded(sh, h, r, ext, first) && first <= Died(h, r)
    ensures LeastDied(sh, h, r, ext, first)
  {
    hide CountsOk, OwnersOk, SlotsOk, HandlesOk, Closed, Bounded, Untouched, Loops, Once, Swept, Logged;
    var died := Died(h, r);
    SurvivorsAreHeld(sh, h, r, ext);
    BoundedDies(sh, h, r, ext, first, died);
    forall dead | Closed(sh, h, ext, dead) && first <= dead ensures died <= dead {
      BoundedDies(sh, h, r, ext, first, dead);
    }
    forall x: Addr | x < |sh| && (sh[x].kind.Embedded? ==> !Loops(h, died, x))
      ensures Once(h, r, x) && (OwnerHolds(sh, h, x) && x in r.strays ==> x in h.strays)
    {
      if sh[x].kind.Embedded? {
        BoundedOnce(sh, h, r, ext, first, died, x);
      } else {
        BoundedCounted(sh, h, r, ext, first, died, x);
      }
    }
  }

  lemma {:induction false} ReleaseLeastDied(sh: Shapes, h: Heap, o: Addr, ext: multiset<Addr>)
    requires Inv(sh, h, ext + multiset{o}, {})
    ensures LeastDied(sh, h, Release(sh, h, o), ext, {})
  {
    hide CountsOk, OwnersOk, SlotsOk, HandlesOk, Begun, Confined, LeastDied;
    var r := Release(sh, h, o);
    ReleaseKeeps(sh, h, o, ext, {});
    ReleaseTraced(sh, h, o);
    forall dead: set<Addr>, clear: set<Addr> | Begun(sh, h, h, ext, dead, clear)
      ensures Confined(sh, h, h, r, {}, dead, clear)
    {
      ReleaseConfined(sh, h, h, o, ext, {}, dead, clear);
    }
    LeastFrom(sh, h, r, ext, {});
  }

  /** If no embedded object of some closed set is on a loop inside it, every object that dies is finalized once. */
  lemma {:induction false} LooplessFinalizesOnce(sh: Shapes, h: Heap, r: Heap, ext: multiset<Addr>,
                                                 first: set<Addr>, dead: set<Addr>)
    requires |sh| == |h.cells| && LeastDied(sh, h, r, ext, first) && Closed(sh, h, ext, dead) && first <= dead
    requires forall x: Addr :: x in dead && x < |sh| && sh[x].kind.Embedded? ==> !Loops(h, dead, x)
    ensures FinalizesOnce(h, r)
  {
    hide Closed, Untouched, Loops, Once;
    forall x: Addr ensures Once(h, r, x) {
      if x in Died(h, r) {
        if Loops(h, Died(h, r), x) {
          LoopsGrow(h, Died(h, r), dead, x);
        }
      } else {
        UnloggedOnce(h, r, x);
      }
    }
  }

  lemma {:induction false} UnloggedOnce(h: Heap, r: Heap, x: Addr)
    requires Logged(h, r) && x !in Died(h, r)
    ensures Once(h, r, x)
  {
    assert x !in New(h, r);
  }

  /** Why an object dies: a counted one exactly if nothing outside refers to it and everything that holds it dies
      too, an embedded one exactly if its parent dies or another dying object holds it. */
  lemma {:induction false} DiesIff(sh: Shapes, h: Heap, r: Heap, ext: multiset<Addr>, first: set<Addr>, x: Addr)
    requires |sh| == |h.cells| && LeastDied(sh, h, r, ext, first) && IsLive(h, x) && x !in first
    ensures x in Died(h, r) <==>
            match sh[x].kind
            case Ordinary => ext[x] == 0 && forall y: Addr :: Holds(h, y, x) ==> y in Died(h, r)
            case Embedded(p, _) => p in Died(h, r) || exists y :: Holds(h, y, x) && y in Died(h, r) && y != x
            case Immortal => false
  {
    var died := Died(h, r);
    if x in died && (match sh[x].kind
                     case Ordinary => !Abandoned(sh, h, ext, died, x)
                     case Embedded(p, _) => p !in died && forall y :: Holds(h, y, x) && y in died ==> y == x
                     case Immortal => true)
    {
      WithoutIsClosed(sh, h, ext, died, x);
    }
  }

  lemma {:induction false} WithoutIsClosed(sh: Shapes, h: Heap, ext: multiset<Addr>, dead: set<Addr>, x: Addr)
    requires |sh| == |h.cells| && Closed(sh, h, ext, dead) && x < |sh|
    requires match sh[x].kind
             case Ordinary => !Abandoned(sh, h, ext, dead, x)
             case Embedded(p, _) => p !in dead && forall y :: Holds(h, y, x) && y in dead ==> y == x
             case Immortal => true
    ensures Closed(sh, h, ext, dead - {x})
  {
    forall z: Addr | Abandoned(sh, h, ext, dead - {x}, z) ensures z in dead - {x} {
      assert Abandoned(sh, h, ext, dead, z);
    }
  }
}

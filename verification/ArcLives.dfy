/** Lives and deaths over runs: what each client operation destroys, and that over a whole run every life that
    began either goes on or was ended once. */
module ArcLives {
  import opened Arc
  import opened ArcInvariant
  import opened ArcLog
  import opened ArcFate
  import opened ArcStore
  import opened ArcRun

  // ---------------------------------------------------------------- one operation

  /** A release destroys the least set of objects left without references, and the embedded objects these own or
      alias. */
  lemma {:induction false} ReleaseDestroysTheAbandoned(w: World, o: Addr)
    requires Good(w) && CountedAt(w, o) && w.client[o] > 0
    ensures LeastDied(w.sh, w.heap, Release(w.sh, w.heap, o), Outside(w) - multiset{o}, {})
  {
    hide LeastDied, CountsOk, OwnersOk, SlotsOk, HandlesOk;
    var ext := Outside(w) - multiset{o};
    assert Outside(w) == ext + multiset{o};
    ReleaseLeastDied(w.sh, w.heap, o, ext);
  }

  /** Storing over a counted value destroys what that leaves without references. */
  lemma {:induction false} OverwritingReleasesTheOld(w: World, p: Addr, i: nat, v: Addr)
    requires Good(w) && Legal(w, Store(p, i, v)) && w.heap.cells[p].slots[i] != v
    requires CountedAt(w, w.heap.cells[p].slots[i])
    ensures LeastDied(w.sh, Stored(w.sh, w.heap, p, i, v), Step(w, Store(p, i, v)).heap, Outside(w), {})
  {
    hide LeastDied, Inv;
    StoreOverCounted(w.sh, w.heap, p, i, v, Outside(w));
  }

  /** Storing something else over the owner slot of an embedded object destroys it, whether or not other slots
      alias it, together with just what has to go with it. */
  lemma {:induction false} OverwritingDestroysTheOwned(w: World, p: Addr, i: nat, v: Addr)
    requires Good(w) && Legal(w, Store(p, i, v)) && w.heap.cells[p].slots[i] != v
    requires var e := w.heap.cells[p].slots[i]; e != NIL && e < |w.sh| && w.sh[e].kind == Embedded(p, i)
    ensures LeastDied(w.sh, Stored(w.sh, w.heap, p, i, v), Step(w, Store(p, i, v)).heap, Outside(w),
                      {w.heap.cells[p].slots[i]})
  {
    hide LeastDied, Counted, GoodSlots;
    assert Owned(w.sh, w.heap, {}, w.heap.cells[p].slots[i]);
    StoreOverOwned(w.sh, w.heap, p, i, v, Outside(w));
  }

  /** Once nil is stored over its owner slot, the storage of an embedded object can be used for a new one, unless
      the parent has to go with the old one. */
  lemma {:induction false} OverwrittenStorageIsReusable(w: World, p: Addr, i: nat, n: nat)
    requires Good(w) && Legal(w, Store(p, i, NIL))
    requires var e := w.heap.cells[p].slots[i]; e != NIL && e < |w.sh| && w.sh[e].kind == Embedded(p, i)
    ensures var e, h := w.heap.cells[p].slots[i], SetSlot(w.heap, p, i, NIL);
            Legal(Step(w, Store(p, i, NIL)), AllocEmbedded(p, i, e, n, false)) <==>
            exists dead :: Closed(w.sh, h, Outside(w), dead) && e in dead && p !in dead
  {
    hide Counted, GoodSlots, Closed, Untouched, Release, Loops, Once;
    var e, h := w.heap.cells[p].slots[i], SetSlot(w.heap, p, i, NIL);
    assert Owned(w.sh, w.heap, {}, e);
    OverwritingDestroysTheOwned(w, p, i, NIL);
    var r := Step(w, Store(p, i, NIL)).heap;
    assert Shrinks(h, r);
    if p !in Died(h, r) {
      assert Closed(w.sh, h, Outside(w), Died(h, r)) && e in Died(h, r);
    }
    if dead :| Closed(w.sh, h, Outside(w), dead) && e in dead && p !in dead {
      assert Died(h, r) <= dead;
    }
  }

  // ---------------------------------------------------------------- a pool pop

  lemma {:induction false} PopTraced(sh: Shapes, h: Heap, pool: seq<Addr>, marker: nat)
    requires |sh| == |h.cells|
    ensures Shrinks(h, PopTo(sh, h, pool, marker)) && Traced(sh, h, PopTo(sh, h, pool, marker))
    decreases |pool|
  {
    hide Traced, Release;
    if |pool| <= marker {
      SelfTraced(sh, h);
    } else {
      var n := |pool| - 1;
      var h1 := Release(sh, h, pool[n]);
      ReleaseTraced(sh, h, pool[n]);
      PopTraced(sh, h1, pool[..n], marker);
      ShrinksTransitive(h, h1, PopTo(sh, h1, pool[..n], marker));
      TracedComposes(sh, h, h1, PopTo(sh, h1, pool[..n], marker));
    }
  }

  lemma {:induction false} EntryConfined(sh: Shapes, h0: Heap, h: Heap, o: Addr, ext: multiset<Addr>,
                                         dead: set<Addr>, clear: set<Addr>)
    requires Inv(sh, h, With(sh, ext, o), {}) && Begun(sh, h0, h, ext, dead, clear)
    ensures Confined(sh, h0, h, Release(sh, h, o), {}, dead, clear)
  {
    hide CountsOk, OwnersOk, SlotsOk, HandlesOk, Confined, Begun, Refs, Release;
    if o < |sh| && sh[o].kind.Ordinary? && o != NIL {
      ReleaseConfined(sh, h0, h, o, ext, {}, dead, clear);
    } else {
      OwnedStays(sh, h, o, ext);
      BegunIs(sh, h0, h, ext, dead, clear);
      SelfConfined(sh, h0, h, {}, dead, clear);
    }
  }

  /** References can only save an object. */
  lemma {:induction false} BegunWithMore(sh: Shapes, h0: Heap, h: Heap, ext: multiset<Addr>, more: multiset<Addr>,
                                         dead: set<Addr>, clear: set<Addr>)
    requires Begun(sh, h0, h, ext, dead, clear) && ext <= more
    ensures Begun(sh, h0, h, more, dead, clear)
  {
    hide Loopless, Untouched, Shrinks;
    forall x: Addr | Abandoned(sh, h0, more, dead, x) ensures x in dead {
      assert Abandoned(sh, h0, ext, dead, x);
    }
  }

  lemma {:induction false} WithMore(sh: Shapes, ext: multiset<Addr>, x: Addr)
    ensures ext <= With(sh, ext, x)
  {
  }

  lemma {:induction false} PooledPrefix(sh: Shapes, pool: seq<Addr>, marker: nat)
    requires marker <= |pool|
    ensures Pooled(sh, pool[..marker]) <= Pooled(sh, pool)
    decreases |pool|
  {
    hide With;
    if marker == |pool| {
      assert pool[..marker] == pool;
    } else {
      var n := |pool| - 1;
      PooledPrefix(sh, pool[..n], marker);
      assert pool[..n][..marker] == pool[..marker];
      WithMore(sh, Pooled(sh, pool[..n]), pool[n]);
    }
  }

  lemma {:induction false} PopConfined(sh: Shapes, h0: Heap, h: Heap, client: multiset<Addr>, pool: seq<Addr>,
                                       marker: nat, dead: set<Addr>, clear: set<Addr>)
    requires Inv(sh, h, client + Pooled(sh, pool), {}) && marker <= |pool|
    requires Begun(sh, h0, h, client + Pooled(sh, pool[..marker]), dead, clear)
    ensures Confined(sh, h0, h, PopTo(sh, h, pool, marker), {}, dead, clear)
    decreases |pool|
  {
    hide CountsOk, OwnersOk, SlotsOk, HandlesOk, Begun, Confined, Release, Shrinks, Refs;
    if |pool| == marker {
      assert pool[..marker] == pool;
      BegunIs(sh, h0, h, client + Pooled(sh, pool[..marker]), dead, clear);
      SelfConfined(sh, h0, h, {}, dead, clear);
    } else {
      var n := |pool| - 1;
      var o, ext := pool[n], client + Pooled(sh, pool[..n]);
      assert client + Pooled(sh, pool) == With(sh, ext, o);
      var h1 := Release(sh, h, o);
      EntryKeeps(sh, h, o, ext);
      assert pool[..n][..marker] == pool[..marker];
      PooledPrefix(sh, pool[..n], marker);
      BegunWithMore(sh, h0, h, client + Pooled(sh, pool[..marker]), ext, dead, clear);
      EntryConfined(sh, h0, h, o, ext, dead, clear);
      ConfinedBegins(sh, h0, h, h, h1, client + Pooled(sh, pool[..marker]), {}, dead, clear);
      PopConfined(sh, h0, h1, client, pool[..n], marker, dead, clear);
      ReleaseTraced(sh, h, o);
      PopTraced(sh, h1, pool[..n], marker);
      ConfinedComposes(sh, h0, h, h1, PopTo(sh, h1, pool[..n], marker), dead, clear);
    }
  }

  lemma {:induction false} ConfinedComposes(sh: Shapes, h0: Heap, a: Heap, b: Heap, c: Heap, dead: set<Addr>,
                                            clear: set<Addr>)
    requires Confined(sh, h0, a, b, {}, dead, clear) && Confined(sh, h0, b, c, {}, dead, clear)
    requires Shrinks(a, b) && Shrinks(b, c) && Traced(sh, a, b) && Traced(sh, b, c)
    ensures Confined(sh, h0, a, c, {}, dead, clear)
  {
    hide Untouched, Once, Shrinks, Swept;
    forall x: Addr | Safe(sh, clear, x) ensures Once(a, c, x) {
      OnceComposes(a, b, c, x);
    }
  }

  /** Popping a pool destroys the least set of objects that only the popped entries kept. */
  lemma {:induction false} PopDestroysTheAbandoned(w: World, token: nat)
    requires Good(w)
    ensures var r := Step(w, Pop(token)); LeastDied(w.sh, w.heap, r.heap, Outside(r), {})
  {
    hide CountsOk, OwnersOk, SlotsOk, HandlesOk, Begun, Confined, LeastDied, Refs;
    var sh, h, r := w.sh, w.heap, Step(w, Pop(token));
    var n := if token > |w.pool| then |w.pool| else token;
    PopKeeps(sh, h, w.client, w.pool, n);
    PopTraced(sh, h, w.pool, n);
    forall dead: set<Addr>, clear: set<Addr> | Begun(sh, h, h, Outside(r), dead, clear)
      ensures Confined(sh, h, h, r.heap, {}, dead, clear)
    {
      PopConfined(sh, h, h, w.client, w.pool, n, dead, clear);
    }
    LeastFrom(sh, h, r.heap, Outside(r), {});
  }

  /** A pop with a token takes the stack down to that height, releasing what lies above it, the newest first; a token
      above the stack takes nothing. */
  lemma {:induction false} PopIsReleases(w: World, token: nat, states: seq<Heap>)
    requires Good(w) && token <= |w.pool| && |states| == |w.pool| - token + 1 && states[0] == w.heap
    requires forall k :: 0 <= k < |w.pool| - token ==>
               |states[k].cells| == |w.sh| && states[k + 1] == Release(w.sh, states[k], w.pool[|w.pool| - 1 - k])
    ensures Step(w, Pop(token)).heap == states[|w.pool| - token] && Step(w, Pop(token)).pool == w.pool[..token]
    ensures forall more :: more > |w.pool| ==> Step(w, Pop(more)).heap == w.heap && Step(w, Pop(more)).pool == w.pool
  {
    hide Release;
    PopReleasesNewestFirst(w.sh, w.heap, w.pool, token, states);
    assert w.pool[..|w.pool|] == w.pool;
  }

  // ---------------------------------------------------------------- whole runs

  predicate BornAt(op: Op, x: Addr) {
    match op
    case Alloc(a, _, _) => a == x
    case AllocInPlace(a, _) => a == x
    case AllocEmbedded(_, _, y, _, _) => y == x
    case _ => false
  }

  /** How many objects a run has begun at `x`. */
  function Births(ops: seq<Op>, x: Addr): nat {
    if ops == [] then 0 else (if BornAt(ops[0], x) then 1 else 0) + Births(ops[1..], x)
  }

  /** How many destructions of an object at `x` have begun, plus one if an object lives there. */
  function Accounted(h: Heap, x: Addr): nat {
    multiset(h.finalized)[x] + if IsLive(h, x) then 1 else 0
  }

  /** The heap in which the destruction that an operation causes begins. */
  ghost function Written(w: World, op: Op): Heap
    requires Legal(w, op)
  {
    if op.Store? && w.heap.cells[op.p].slots[op.i] != op.v then Stored(w.sh, w.heap, op.p, op.i, op.v) else w.heap
  }

  /** No slots inside what the operation destroys lead from an embedded object at `x` back to it. */
  ghost predicate Tidy(w: World, op: Op, x: Addr)
    requires Legal(w, op)
  {
    x < |w.sh| && w.sh[x].kind.Embedded? ==> !Loops(Written(w, op), Died(Written(w, op), Step(w, op).heap), x)
  }

  ghost predicate TidyRun(w: World, ops: seq<Op>, x: Addr)
    requires LegalRun(w, ops)
    decreases |ops|
  {
    ops == [] || (Tidy(w, ops[0], x) && TidyRun(Step(w, ops[0]), ops[1..], x))
  }

  lemma {:induction false} DeathsAccounted(h: Heap, r: Heap, x: Addr)
    requires Shrinks(h, r) && Logged(h, r) && x < |h.cells|
    ensures Accounted(r, x) >= Accounted(h, x) && (Once(h, r, x) ==> Accounted(r, x) == Accounted(h, x))
  {
    assert r.finalized == h.finalized + New(h, r);
    assert x in New(h, r) <==> x in Died(h, r);
  }

  lemma {:induction false} LeastAccounted(sh: Shapes, h: Heap, r: Heap, ext: multiset<Addr>, first: set<Addr>, x: Addr)
    requires |sh| == |h.cells| && Shrinks(h, r) && LeastDied(sh, h, r, ext, first) && x < |sh|
    ensures Accounted(r, x) >= Accounted(h, x)
    ensures (sh[x].kind.Embedded? ==> !Loops(h, Died(h, r), x)) ==> Accounted(r, x) == Accounted(h, x)
  {
    hide Closed, Untouched, Loops, Once, Shrinks;
    DeathsAccounted(h, r, x);
  }

  lemma {:induction false} StoreAccounted(w: World, p: Addr, i: nat, v: Addr, x: Addr)
    requires Good(w) && Legal(w, Store(p, i, v)) && x < |w.sh|
    ensures var r := Step(w, Store(p, i, v)).heap;
            && Accounted(r, x) >= Accounted(w.heap, x)
            && (Tidy(w, Store(p, i, v), x) ==> Accounted(r, x) == Accounted(w.heap, x))
  {
    hide Inv, LeastDied, Loops, Release;
    var was := w.heap.cells[p].slots[i];
    if was != v {
      var h, r := Stored(w.sh, w.heap, p, i, v), Step(w, Store(p, i, v)).heap;
      assert Accounted(h, x) == Accounted(w.heap, x);
      assert |w.sh| == |w.heap.cells|;
      if IsLive(w.heap, was) && w.sh[was].kind.Ordinary? {
        OverwritingReleasesTheOld(w, p, i, v);
        LeastAccounted(w.sh, h, r, Outside(w), {}, x);
      } else if IsLive(w.heap, was) && w.sh[was].kind == Embedded(p, i) {
        StoreOverOwned(w.sh, w.heap, p, i, v, Outside(w));
        LeastAccounted(w.sh, h, r, Outside(w), {was}, x);
      } else {
        QuietStore(w.sh, w.heap, p, i, v, Outside(w));
      }
    }
  }

  lemma {:induction false} ReleaseAccounted(w: World, o: Addr, x: Addr)
    requires Good(w) && Legal(w, ReleaseOp(o)) && x < |w.sh|
    ensures var r := Step(w, ReleaseOp(o)).heap;
            && Accounted(r, x) >= Accounted(w.heap, x)
            && (Tidy(w, ReleaseOp(o), x) ==> Accounted(r, x) == Accounted(w.heap, x))
  {
    hide CountsOk, OwnersOk, SlotsOk, HandlesOk, LeastDied, Loops, Release;
    if CountedAt(w, o) {
      ReleaseDestroysTheAbandoned(w, o);
      LeastAccounted(w.sh, w.heap, Release(w.sh, w.heap, o), Outside(w) - multiset{o}, {}, x);
    } else {
      OwnedStays(w.sh, w.heap, o, Outside(w));
    }
  }

  lemma {:induction false} PopAccounted(w: World, token: nat, x: Addr)
    requires Good(w) && x < |w.sh|
    ensures var r := Step(w, Pop(token)).heap;
            && Accounted(r, x) >= Accounted(w.heap, x)
            && (Tidy(w, Pop(token), x) ==> Accounted(r, x) == Accounted(w.heap, x))
  {
    hide LeastDied, Loops;
    var r := Step(w, Pop(token));
    PopTraced(w.sh, w.heap, w.pool, if token > |w.pool| then |w.pool| else token);
    PopDestroysTheAbandoned(w, token);
    LeastAccounted(w.sh, w.heap, r.heap, Outside(r), {}, x);
  }

  lemma {:induction false} StepAccounted(w: World, op: Op, x: Addr)
    requires Good(w) && Legal(w, op) && x < |w.sh|
    ensures var r := Step(w, op).heap;
            var born := if BornAt(op, x) then 1 else 0;
            && Accounted(r, x) >= Accounted(w.heap, x) + born
            && (Tidy(w, op, x) ==> Accounted(r, x) == Accounted(w.heap, x) + born)
  {
    hide Inv, Release, LeastDied, Loops, PopTo, StoreStrong;
    match op
    case Alloc(_, _, _) =>
    case AllocInPlace(_, _) =>
    case AllocEmbedded(_, _, _, _, _) =>
    case RetainOp(_) =>
    case ReleaseOp(o) => ReleaseAccounted(w, o, x);
    case Store(p, i, v) => StoreAccounted(w, p, i, v, x);
    case Autorelease(_, _) =>
    case Push(_) =>
    case Pop(token) => PopAccounted(w, token, x);
  }

  lemma {:induction false} RunAccounted(w: World, ops: seq<Op>, x: Addr)
    requires Good(w) && LegalRun(w, ops) && x < |w.sh|
    ensures var r := Run(w, ops).heap;
            && Accounted(r, x) >= Accounted(w.heap, x) + Births(ops, x)
            && (TidyRun(w, ops, x) ==> Accounted(r, x) == Accounted(w.heap, x) + Births(ops, x))
    decreases |ops|
  {
    hide Good, Accounted, Tidy, BornAt;
    if ops != [] {
      StepKeeps(w, ops[0]);
      StepAccounted(w, ops[0], x);
      SameSpace(w, ops[0]);
      RunAccounted(Step(w, ops[0]), ops[1..], x);
    }
  }

  lemma {:induction false} SameSpace(w: World, op: Op)
    requires Good(w) && Legal(w, op)
    ensures |Step(w, op).sh| == |w.sh|
  {
  }

  /** Over any run from the start, every object that began to live at `x` lives on or its destruction has begun, and
      that once, as long as no operation destroys an embedded object at `x` that slots in what it destroys lead
      back to. */
  lemma {:induction false} EveryLifeEndsOnce(w0: World, ops: seq<Op>, x: Addr)
    requires Initial(w0) && LegalRun(w0, ops) && x < |w0.sh|
    ensures var h := Run(w0, ops).heap;
            && Accounted(h, x) >= Births(ops, x)
            && (TidyRun(w0, ops, x) ==> Accounted(h, x) == Births(ops, x))
  {
    InitialGood(w0);
    RunAccounted(w0, ops, x);
  }

  // ---------------------------------------------------------------- nothing is left behind by its block

  /** A store over an owner slot leaves the parent alive. */
  ghost predicate Steady(w: World, op: Op)
    requires Legal(w, op)
  {
    op.Store? && StoresOverOwned(w.sh, w.heap, op.p, op.i, op.v, Outside(w)) ==> IsLive(Step(w, op).heap, op.p)
  }

  ghost predicate SteadyRun(w: World, ops: seq<Op>)
    requires LegalRun(w, ops)
    decreases |ops|
  {
    ops == [] || (Steady(w, ops[0]) && (forall x: Addr :: Tidy(w, ops[0], x)) && SteadyRun(Step(w, ops[0]), ops[1..]))
  }

  /** Every live embedded object but those in `first` is where it belongs. */
  ghost predicate AllOwned(sh: Shapes, h: Heap, first: set<Addr>)
    requires |sh| == |h.cells|
  {
    forall x: Addr :: IsLive(h, x) && sh[x].kind.Embedded? && x !in first ==> OwnerHolds(sh, h, x)
  }

  lemma {:induction false} LeastHoused(sh: Shapes, h: Heap, r: Heap, ext: multiset<Addr>, first: set<Addr>)
    requires |sh| == |h.cells| && LeastDied(sh, h, r, ext, first) && Traced(sh, h, r) && AllOwned(sh, h, first)
    requires forall x: Addr :: x < |sh| && sh[x].kind.Embedded? ==> !Loops(h, Died(h, r), x)
    requires forall x: Addr :: x in first && x < |sh| && sh[x].kind.Embedded? ==> sh[x].kind.parent !in Died(h, r)
    ensures r.strays == h.strays
  {
    hide Closed, Untouched, Loops, Once, Logged, Swept, OwnerHolds;
  }

  /** Between operations every live embedded object is held by its owner slot. */
  lemma {:induction false} GoodIsOwned(sh: Shapes, h: Heap, ext: multiset<Addr>, dying: set<Addr>)
    requires Inv(sh, h, ext, dying)
    ensures AllOwned(sh, h, dying)
  {
    forall x: Addr | IsLive(h, x) && sh[x].kind.Embedded? && x !in dying ensures OwnerHolds(sh, h, x) {
      assert Owned(sh, h, dying, x);
    }
  }

  lemma {:induction false} ReleaseHoused(w: World, o: Addr)
    requires Good(w) && Legal(w, ReleaseOp(o)) && forall x: Addr :: Tidy(w, ReleaseOp(o), x)
    ensures Step(w, ReleaseOp(o)).heap.strays == w.heap.strays
  {
    hide CountsOk, OwnersOk, SlotsOk, HandlesOk, LeastDied, Loops, Release, Traced, AllOwned;
    if CountedAt(w, o) {
      ReleaseDestroysTheAbandoned(w, o);
      ReleaseTraced(w.sh, w.heap, o);
      GoodIsOwned(w.sh, w.heap, Outside(w), {});
      TidyEverywhere(w, ReleaseOp(o));
      LeastHoused(w.sh, w.heap, Release(w.sh, w.heap, o), Outside(w) - multiset{o}, {});
    } else {
      OwnedStays(w.sh, w.heap, o, Outside(w));
    }
  }

  lemma {:induction false} TidyEverywhere(w: World, op: Op)
    requires Legal(w, op) && forall x: Addr :: Tidy(w, op, x)
    ensures forall x: Addr :: x < |w.sh| && w.sh[x].kind.Embedded? ==>
              !Loops(Written(w, op), Died(Written(w, op), Step(w, op).heap), x)
  {
    hide Loops, Written;
    forall x: Addr | x < |w.sh| && w.sh[x].kind.Embedded?
      ensures !Loops(Written(w, op), Died(Written(w, op), Step(w, op).heap), x)
    {
      assert Tidy(w, op, x);
    }
  }

  lemma {:induction false} PopHoused(w: World, token: nat)
    requires Good(w) && forall x: Addr :: Tidy(w, Pop(token), x)
    ensures Step(w, Pop(token)).heap.strays == w.heap.strays
  {
    hide CountsOk, OwnersOk, SlotsOk, HandlesOk, LeastDied, Loops, Release, Traced, AllOwned;
    var r := Step(w, Pop(token));
    PopTraced(w.sh, w.heap, w.pool, if token > |w.pool| then |w.pool| else token);
    PopDestroysTheAbandoned(w, token);
    GoodIsOwned(w.sh, w.heap, Outside(w), {});
    TidyEverywhere(w, Pop(token));
    LeastHoused(w.sh, w.heap, r.heap, Outside(r), {});
  }

  lemma {:induction false} StoreHoused(w: World, p: Addr, i: nat, v: Addr)
    requires Good(w) && Legal(w, Store(p, i, v)) && Steady(w, Store(p, i, v))
    requires forall x: Addr :: Tidy(w, Store(p, i, v), x)
    ensures Step(w, Store(p, i, v)).heap.strays == w.heap.strays
  {
    hide CountsOk, OwnersOk, SlotsOk, HandlesOk, LeastDied, Loops, Release, Traced, AllOwned, Stored;
    var was := w.heap.cells[p].slots[i];
    if was != v {
      var h, r := Stored(w.sh, w.heap, p, i, v), Step(w, Store(p, i, v)).heap;
      StoredStrays(w.sh, w.heap, p, i, v);
      TidyEverywhere(w, Store(p, i, v));
      if IsLive(w.heap, was) && w.sh[was].kind.Ordinary? {
        OverwritingReleasesTheOld(w, p, i, v);
        StoreTraced(w, p, i, v);
        LeastHoused(w.sh, h, r, Outside(w), {});
      } else if IsLive(w.heap, was) && w.sh[was].kind == Embedded(p, i) {
        StoreOverOwned(w.sh, w.heap, p, i, v, Outside(w));
        StoreTraced(w, p, i, v);
        LeastHoused(w.sh, h, r, Outside(w), {was});
      } else {
        QuietStore(w.sh, w.heap, p, i, v, Outside(w));
      }
    }
  }

  lemma {:induction false} StoredStrays(sh: Shapes, h: Heap, p: Addr, i: nat, v: Addr)
    requires |sh| == |h.cells| && p < |h.cells| && i < |h.cells[p].slots|
    ensures Stored(sh, h, p, i, v).strays == h.strays
  {
  }

  /** What the release in a store starts from. */
  lemma {:induction false} StoreTraced(w: World, p: Addr, i: nat, v: Addr)
    requires Good(w) && Legal(w, Store(p, i, v)) && w.heap.cells[p].slots[i] != v
    requires var was := w.heap.cells[p].slots[i];
             IsLive(w.heap, was) && (w.sh[was].kind.Ordinary? || w.sh[was].kind == Embedded(p, i))
    ensures var h, r := Stored(w.sh, w.heap, p, i, v), Step(w, Store(p, i, v)).heap;
            var was := w.heap.cells[p].slots[i];
            Traced(w.sh, h, r) && AllOwned(w.sh, h, if w.sh[was].kind.Ordinary? then {} else {was})
  {
    hide CountsOk, OwnersOk, SlotsOk, HandlesOk, Release, Traced, AllOwned, SetSlot, Retained;
    var was, h := w.heap.cells[p].slots[i], Stored(w.sh, w.heap, p, i, v);
    StoredIs(w.sh, w.heap, p, i, v, Outside(w));
    ReleaseTraced(w.sh, h, was);
    if w.sh[was].kind.Ordinary? {
      RetainedKeeps(w.sh, w.heap, v, Outside(w));
      WriteKeeps(w.sh, Retained(w.sh, w.heap, v), p, i, v, Outside(w));
      GoodIsOwned(w.sh, h, With(w.sh, Outside(w), was), {});
    } else {
      OldEmbedded(w.sh, w.heap, p, i, v, Outside(w));
      GoodIsOwned(w.sh, h, Outside(w), {was});
    }
  }

  lemma {:induction false} StepHoused(w: World, op: Op)
    requires Good(w) && Legal(w, op) && Steady(w, op) && forall x: Addr :: Tidy(w, op, x)
    ensures Step(w, op).heap.strays == w.heap.strays
  {
    hide Inv, Release, LeastDied, Loops, PopTo, StoreStrong, Tidy, Steady;
    match op
    case Alloc(_, _, _) =>
    case AllocInPlace(_, _) =>
    case AllocEmbedded(_, _, _, _, _) =>
    case RetainOp(_) =>
    case ReleaseOp(o) => ReleaseHoused(w, o);
    case Store(p, i, v) => StoreHoused(w, p, i, v);
    case Autorelease(_, _) =>
    case Push(_) =>
    case Pop(token) => PopHoused(w, token);
  }

  lemma {:induction false} RunHoused(w: World, ops: seq<Op>)
    requires Good(w) && LegalRun(w, ops) && SteadyRun(w, ops)
    ensures Run(w, ops).heap.strays == w.heap.strays
    decreases |ops|
  {
    hide Good, Tidy, Steady;
    if ops != [] {
      StepKeeps(w, ops[0]);
      StepHoused(w, ops[0]);
      RunHoused(Step(w, ops[0]), ops[1..]);
    }
  }

  /** Over any run in which no operation destroys an embedded object that slots in what it destroys lead back to, or
      its parent by a store over its owner slot, no object is disposed before everything that lies in it is. */
  lemma {:induction false} NothingIsLeftBehind(w0: World, ops: seq<Op>)
    requires Initial(w0) && LegalRun(w0, ops) && SteadyRun(w0, ops)
    ensures Run(w0, ops).heap.strays == {}
  {
    InitialGood(w0);
    RunHoused(w0, ops);
  }
}

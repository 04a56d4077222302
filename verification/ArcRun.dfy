/** Whole runs: a client allocates, retains, releases, stores, autoreleases and pops pools in any
    order it is entitled to, and the counts stay exact throughout. */
module ArcRun {
  import opened Arc
  import opened ArcInvariant
  import opened ArcLog
  import opened ArcFate
  import opened ArcStore

  /** `client` counts the references callers own, `pool` is the autorelease stack and `marks` the
      recorded pool markers. The address space has a fixed, arbitrary size. */
  datatype World = World(sh: Shapes, heap: Heap, client: multiset<Addr>, pool: seq<Addr>, marks: seq<nat>)

  datatype Op =
    | Alloc(a: Addr, slots: nat, trivial: bool)
    | AllocInPlace(a: Addr, slots: nat)
    | AllocEmbedded(p: Addr, k: nat, x: Addr, slots: nat, trivial: bool)
    | RetainOp(o: Addr)
    | ReleaseOp(o: Addr)
    | Store(p: Addr, i: nat, v: Addr)
    | Autorelease(o: Addr, recorded: bool)
    | Push(recorded: bool)
    | Pop(token: nat)

  /** The pool entries that are references to counted objects. */
  ghost function Pooled(sh: Shapes, pool: seq<Addr>): multiset<Addr> {
    if pool == [] then multiset{} else With(sh, Pooled(sh, pool[..|pool| - 1]), pool[|pool| - 1])
  }

  ghost function Outside(w: World): multiset<Addr> {
    w.client + Pooled(w.sh, w.pool)
  }

  function Nils(n: nat): (s: seq<Addr>)
    ensures |s| == n && forall j :: 0 <= j < n ==> s[j] == NIL
  {
    seq(n, _ => NIL)
  }

  /** Popping to `marker` releases the newest entries first. */
  function PopTo(sh: Shapes, h: Heap, pool: seq<Addr>, marker: nat): (r: Heap)
    requires |sh| == |h.cells|
    ensures |r.cells| == |h.cells|
    decreases |pool|
  {
    if |pool| <= marker then h
    else PopTo(sh, Release(sh, h, pool[|pool| - 1]), pool[..|pool| - 1], marker)
  }

  ghost function Step(w: World, op: Op): World
    requires Legal(w, op)
  {
    match op
    case Alloc(a, n, trivial) =>
      w.(sh := w.sh[a := Shape(Ordinary, trivial)],
         heap := w.heap.(cells := w.heap.cells[a := Cell(true, 1, Nils(n))]),
         client := w.client + multiset{a})
    case AllocInPlace(a, n) =>
      w.(sh := w.sh[a := Shape(Immortal, false)],
         heap := w.heap.(cells := w.heap.cells[a := Cell(true, 1, Nils(n))]))
    case AllocEmbedded(p, k, x, n, trivial) =>
      w.(sh := w.sh[x := Shape(Embedded(p, k), trivial)],
         heap := SetSlot(w.heap.(cells := w.heap.cells[x := Cell(true, 1, Nils(n))]), p, k, x))
    case RetainOp(o) =>
      w.(heap := Retain(w.sh, w.heap, o), client := if CountedAt(w, o) then w.client + multiset{o} else w.client)
    case ReleaseOp(o) =>
      w.(heap := Release(w.sh, w.heap, o), client := if CountedAt(w, o) then w.client - multiset{o} else w.client)
    case Store(p, i, v) => w.(heap := StoreStrong(w.sh, w.heap, p, i, v))
    case Autorelease(o, recorded) =>
      if o != NIL && recorded && w.marks != [] then
        w.(client := if CountedAt(w, o) then w.client - multiset{o} else w.client, pool := w.pool + [o])
      else w
    case Push(recorded) => if recorded then w.(marks := w.marks + [|w.pool|]) else w
    case Pop(token) =>
      var marks := if w.marks != [] && w.marks[|w.marks| - 1] == token then w.marks[..|w.marks| - 1] else w.marks;
      var n := if token > |w.pool| then |w.pool| else token;
      w.(heap := PopTo(w.sh, w.heap, w.pool, n), pool := w.pool[..n], marks := marks)
  }

  /** `o` is a live object whose references are counted. */
  predicate CountedAt(w: World, o: Addr) {
    o < |w.sh| == |w.heap.cells| && w.heap.cells[o].live && w.sh[o].kind.Ordinary?
  }

  /** A new block may begin at `a`: no object lives there, and no slot or pool entry has the address. */
  ghost predicate Vacant(w: World, a: Addr) {
    && NIL < a < |w.sh| == |w.heap.cells| && !w.heap.cells[a].live && a !in w.pool
    && forall y :: 0 <= y < |w.sh| ==> a !in w.heap.cells[y].slots
  }

  /** What a caller may do: release or autorelease a counted object only if it owns a reference, store any live
      value into any live object, and give a parent a new value object in dead storage whose owner slot is nil. */
  ghost predicate Legal(w: World, op: Op) {
    && |w.sh| == |w.heap.cells|
    && match op
       case Alloc(a, n, trivial) => Vacant(w, a) && (trivial ==> n == 0)
       case AllocInPlace(a, n) => Vacant(w, a)
       case AllocEmbedded(p, k, x, n, trivial) =>
         && p < x < |w.sh| && w.heap.cells[p].live && k < |w.heap.cells[p].slots| && w.heap.cells[p].slots[k] == NIL
         && !w.heap.cells[x].live && (trivial ==> n == 0)
       case RetainOp(o) => o == NIL || IsLive(w.heap, o)
       case ReleaseOp(o) => Owns(w, o)
       case Store(p, i, v) =>
         IsLive(w.heap, p) && i < |w.heap.cells[p].slots| && (v == NIL || IsLive(w.heap, v))
       case Autorelease(o, _) => Owns(w, o)
       case Push(_) => true
       case Pop(_) => true
  }

  /** A caller may give a reference to `o` away. */
  ghost predicate Owns(w: World, o: Addr) {
    o == NIL || (o < |w.sh| && IsLive(w.heap, o) && (w.sh[o].kind.Ordinary? ==> w.client[o] > 0))
  }

  ghost predicate Good(w: World) {
    Inv(w.sh, w.heap, Outside(w), {})
  }

  ghost predicate LegalRun(w: World, ops: seq<Op>)
    decreases |ops|
  {
    ops == [] || (Legal(w, ops[0]) && LegalRun(Step(w, ops[0]), ops[1..]))
  }

  ghost function Run(w: World, ops: seq<Op>): World
    requires LegalRun(w, ops)
    decreases |ops|
  {
    if ops == [] then w else Run(Step(w, ops[0]), ops[1..])
  }

  // ---------------------------------------------------------------- pools

  /** Entries that stay counted, or uncounted, keep their share. */
  lemma {:induction false} PooledSame(sh: Shapes, sh1: Shapes, pool: seq<Addr>)
    requires |sh| == |sh1|
    requires forall x :: x in pool && x < |sh| ==> sh[x].kind.Ordinary? == sh1[x].kind.Ordinary?
    ensures Pooled(sh, pool) == Pooled(sh1, pool)
    decreases |pool|
  {
    if pool != [] {
      PooledSame(sh, sh1, pool[..|pool| - 1]);
      assert pool[|pool| - 1] in pool;
    }
  }

  lemma {:induction false} PooledCount(sh: Shapes, pool: seq<Addr>, x: Addr)
    ensures Pooled(sh, pool)[x] ==
            if x < |sh| && sh[x].kind.Ordinary? && x != NIL then multiset(pool)[x] else 0
    decreases |pool|
  {
    if pool != [] {
      var n := |pool| - 1;
      PooledCount(sh, pool[..n], x);
      assert pool == pool[..n] + [pool[n]];
    }
  }

  lemma {:induction false} PooledAppend(sh: Shapes, pool: seq<Addr>, o: Addr)
    ensures Pooled(sh, pool + [o]) == With(sh, Pooled(sh, pool), o)
  {
    assert (pool + [o])[..|pool|] == pool;
  }

  // ---------------------------------------------------------------- allocation

  /** A new cell with nil slots at an address that nothing holds. */
  lemma NewCellKeeps(sh: Shapes, h: Heap, ext: multiset<Addr>, a: Addr, shape: Shape, n: nat)
    requires Inv(sh, h, ext, {}) && NIL < a < |sh| && !h.cells[a].live
    requires forall y :: 0 <= y < |sh| ==> a !in h.cells[y].slots
    requires !shape.kind.Embedded? && (shape.trivial ==> n == 0)
    ensures var ext1 := if shape.kind.Ordinary? then ext + multiset{a} else ext;
            Inv(sh[a := shape], h.(cells := h.cells[a := Cell(true, 1, Nils(n))]), ext1, {})
  {
    hide Counted, Owned, GoodSlots;
    var sh1, h1 := sh[a := shape], h.(cells := h.cells[a := Cell(true, 1, Nils(n))]);
    var ext1 := if shape.kind.Ordinary? then ext + multiset{a} else ext;
    assert CountsOk(sh1, h1, ext1, {}) by {
      forall x | 0 <= x < |sh| ensures Counted(sh1, h1, ext1, {}, x) { NewCellCounts(sh, h, ext, a, shape, n, x); }
    }
    assert OwnersOk(sh1, h1, {}) by {
      forall x | 0 <= x < |sh| ensures Owned(sh1, h1, {}, x) { NewCellOwner(sh, h, a, shape, n, x); }
    }
    assert SlotsOk(sh1, h1) by {
      forall y | 0 <= y < |sh| ensures GoodSlots(sh1, h1, y) { NewCellSlots(sh, h, a, shape, n, y); }
    }
    assert HandlesOk(sh1, h1, ext1, {});
  }

  lemma NewCellCounts(sh: Shapes, h: Heap, ext: multiset<Addr>, a: Addr, shape: Shape, n: nat, x: Addr)
    requires |sh| == |h.cells| && CountsOk(sh, h, ext, {}) && SlotsOk(sh, h) && HandlesOk(sh, h, ext, {})
    requires NIL < a < |sh| && !h.cells[a].live && !h.cells[NIL].live && x < |sh|
    requires forall y :: 0 <= y < |sh| ==> a !in h.cells[y].slots
    ensures Counted(sh[a := shape], h.(cells := h.cells[a := Cell(true, 1, Nils(n))]),
                    if shape.kind.Ordinary? then ext + multiset{a} else ext, {}, x)
  {
    NewCellRefs(sh, h, a, n);
    RefsMember(h.cells, a);
    assert Counted(sh, h, ext, {}, x);
  }

  lemma NewCellOwner(sh: Shapes, h: Heap, a: Addr, shape: Shape, n: nat, x: Addr)
    requires |sh| == |h.cells| && OwnersOk(sh, h, {}) && SlotsOk(sh, h) && a < |sh| && !h.cells[a].live && x < |sh|
    requires !shape.kind.Embedded? && forall y :: 0 <= y < |sh| ==> a !in h.cells[y].slots
    ensures Owned(sh[a := shape], h.(cells := h.cells[a := Cell(true, 1, Nils(n))]), {}, x)
  {
    assert GoodSlots(sh, h, a);
    assert Owned(sh, h, {}, x);
  }

  lemma NewCellSlots(sh: Shapes, h: Heap, a: Addr, shape: Shape, n: nat, y: Addr)
    requires |sh| == |h.cells| && SlotsOk(sh, h) && a < |sh| && y < |sh| && (shape.trivial ==> n == 0)
    requires forall y :: 0 <= y < |sh| ==> a !in h.cells[y].slots
    ensures GoodSlots(sh[a := shape], h.(cells := h.cells[a := Cell(true, 1, Nils(n))]), y)
  {
    var sh1, h1 := sh[a := shape], h.(cells := h.cells[a := Cell(true, 1, Nils(n))]);
    assert GoodSlots(sh, h, y);
    forall j | 0 <= j < |h1.cells[y].slots| ensures MayHold(sh1, h1, h1.cells[y].slots[j]) {
      if y != a {
        assert MayHold(sh, h, h.cells[y].slots[j]);
        assert h.cells[y].slots[j] in h.cells[y].slots;
      }
    }
  }

  lemma NewCellRefs(sh: Shapes, h: Heap, a: Addr, n: nat)
    requires a < |sh| == |h.cells| && SlotsOk(sh, h) && !h.cells[a].live
    ensures forall x :: x != NIL ==> Refs(h.cells[a := Cell(true, 1, Nils(n))])[x] == Refs(h.cells)[x]
  {
    var c := Cell(true, 1, Nils(n));
    RefsUpdate(h.cells, a, c);
    assert GoodSlots(sh, h, a);
    forall x | x != NIL ensures Refs(h.cells[a := c])[x] == Refs(h.cells)[x] {
      assert x !in h.cells[a].slots && x !in c.slots;
      assert (Refs(h.cells[a := c]) + multiset(h.cells[a].slots))[x] == (Refs(h.cells) + multiset(c.slots))[x];
    }
  }

  /** A value object placed in hidden storage of `p` and stored in its owner slot. Slots anywhere may still
      have its address from an earlier object. */
  lemma NewEmbeddedKeeps(w: World, p: Addr, k: nat, x: Addr, n: nat, trivial: bool)
    requires Good(w) && Legal(w, AllocEmbedded(p, k, x, n, trivial))
    ensures Good(Step(w, AllocEmbedded(p, k, x, n, trivial)))
  {
    hide Counted, Owned, GoodSlots;
    var w1 := Step(w, AllocEmbedded(p, k, x, n, trivial));
    NewEmbeddedPool(w, p, k, x, n, trivial);
    assert CountsOk(w1.sh, w1.heap, Outside(w), {}) by { NewEmbeddedCounts(w, p, k, x, n, trivial); }
    assert OwnersOk(w1.sh, w1.heap, {}) by { NewEmbeddedOwners(w, p, k, x, n, trivial); }
    assert SlotsOk(w1.sh, w1.heap) by { NewEmbeddedSlots(w, p, k, x, n, trivial); }
    assert HandlesOk(w1.sh, w1.heap, Outside(w), {});
  }

  lemma {:induction false} NewEmbeddedPool(w: World, p: Addr, k: nat, x: Addr, n: nat, trivial: bool)
    requires Good(w) && Legal(w, AllocEmbedded(p, k, x, n, trivial))
    ensures Outside(Step(w, AllocEmbedded(p, k, x, n, trivial))) == Outside(w)
  {
    PooledCount(w.sh, w.pool, x);
    assert x !in Outside(w);
    PooledSame(w.sh, Step(w, AllocEmbedded(p, k, x, n, trivial)).sh, w.pool);
  }

  lemma NewEmbeddedCounts(w: World, p: Addr, k: nat, x: Addr, n: nat, trivial: bool)
    requires Good(w) && Legal(w, AllocEmbedded(p, k, x, n, trivial))
    ensures var w1 := Step(w, AllocEmbedded(p, k, x, n, trivial)); CountsOk(w1.sh, w1.heap, Outside(w), {})
  {
    hide GoodSlots, Owned;
    var w1 := Step(w, AllocEmbedded(p, k, x, n, trivial));
    NewCellRefs(w.sh, w.heap, x, n);
    RefsOfSlotChange(w.heap.(cells := w.heap.cells[x := Cell(true, 1, Nils(n))]), p, k, x);
    forall y | 0 <= y < |w.sh| ensures Counted(w1.sh, w1.heap, Outside(w), {}, y) {
      assert Counted(w.sh, w.heap, Outside(w), {}, y);
    }
  }

  lemma NewEmbeddedOwners(w: World, p: Addr, k: nat, x: Addr, n: nat, trivial: bool)
    requires Good(w) && Legal(w, AllocEmbedded(p, k, x, n, trivial))
    ensures var w1 := Step(w, AllocEmbedded(p, k, x, n, trivial)); OwnersOk(w1.sh, w1.heap, {})
  {
    var w1 := Step(w, AllocEmbedded(p, k, x, n, trivial));
    assert GoodSlots(w.sh, w.heap, x);
    forall y | 0 <= y < |w.sh| ensures Owned(w1.sh, w1.heap, {}, y) {
      assert Owned(w.sh, w.heap, {}, y);
    }
  }

  lemma NewEmbeddedSlots(w: World, p: Addr, k: nat, x: Addr, n: nat, trivial: bool)
    requires Good(w) && Legal(w, AllocEmbedded(p, k, x, n, trivial))
    ensures var w1 := Step(w, AllocEmbedded(p, k, x, n, trivial)); SlotsOk(w1.sh, w1.heap)
  {
    var w1 := Step(w, AllocEmbedded(p, k, x, n, trivial));
    forall y | 0 <= y < |w.sh| ensures GoodSlots(w1.sh, w1.heap, y) {
      assert GoodSlots(w.sh, w.heap, y);
      forall j | 0 <= j < |w1.heap.cells[y].slots| ensures MayHold(w1.sh, w1.heap, w1.heap.cells[y].slots[j]) {
        if y != x {
          assert MayHold(w.sh, w.heap, w.heap.cells[y].slots[j]);
        }
      }
    }
  }

  // ---------------------------------------------------------------- whole runs

  /** Between operations a release of an embedded or immortal object does nothing. */
  lemma {:induction false} OwnedStays(sh: Shapes, h: Heap, o: Addr, ext: multiset<Addr>)
    requires Inv(sh, h, ext, {}) && (IsLive(h, o) ==> !sh[o].kind.Ordinary?)
    ensures Release(sh, h, o) == h
  {
    hide CountsOk, SlotsOk, HandlesOk;
    assert o < |sh| ==> Owned(sh, h, {}, o);
  }

  /** A release of a pool entry: of a counted object it spends the reference, of anything else it is none. */
  lemma {:induction false} EntryKeeps(sh: Shapes, h: Heap, o: Addr, ext: multiset<Addr>)
    requires Inv(sh, h, With(sh, ext, o), {})
    ensures Inv(sh, Release(sh, h, o), ext, {})
  {
    hide CountsOk, OwnersOk, SlotsOk, HandlesOk, Release;
    if o < |sh| && sh[o].kind.Ordinary? && o != NIL {
      ReleaseKeeps(sh, h, o, ext, {});
    } else {
      OwnedStays(sh, h, o, ext);
    }
  }

  lemma {:induction false} PopKeeps(sh: Shapes, h: Heap, client: multiset<Addr>, pool: seq<Addr>, marker: nat)
    requires Inv(sh, h, client + Pooled(sh, pool), {}) && marker <= |pool|
    ensures Inv(sh, PopTo(sh, h, pool, marker), client + Pooled(sh, pool[..marker]), {})
    decreases |pool|
  {
    hide CountsOk, OwnersOk, SlotsOk, HandlesOk, Release;
    if |pool| == marker {
      assert pool[..marker] == pool;
    } else {
      var n := |pool| - 1;
      assert client + Pooled(sh, pool) == With(sh, client + Pooled(sh, pool[..n]), pool[n]);
      EntryKeeps(sh, h, pool[n], client + Pooled(sh, pool[..n]));
      PopKeeps(sh, Release(sh, h, pool[n]), client, pool[..n], marker);
      assert pool[..n][..marker] == pool[..marker];
    }
  }

  /** What a pop leaves is what releasing the entries one after the other leaves, the newest first. */
  lemma {:induction false} PopReleasesNewestFirst(sh: Shapes, h: Heap, pool: seq<Addr>, marker: nat, states: seq<Heap>)
    requires |sh| == |h.cells| && marker <= |pool| && |states| == |pool| - marker + 1 && states[0] == h
    requires forall k :: 0 <= k < |pool| - marker ==>
               |states[k].cells| == |sh| && states[k + 1] == Release(sh, states[k], pool[|pool| - 1 - k])
    ensures PopTo(sh, h, pool, marker) == states[|pool| - marker]
    decreases |pool|
  {
    hide Release;
    if |pool| > marker {
      var n := |pool| - 1;
      assert states[1] == Release(sh, h, pool[n]);
      forall k | 0 <= k < n - marker
        ensures |states[1..][k].cells| == |sh|
        ensures states[1..][k + 1] == Release(sh, states[1..][k], pool[..n][n - 1 - k])
      {
        assert states[k + 1 + 1] == Release(sh, states[k + 1], pool[|pool| - 1 - (k + 1)]);
      }
      PopReleasesNewestFirst(sh, states[1], pool[..n], marker, states[1..]);
    }
  }

  /** Nothing goes with `o`: it holds nothing, and its only reference is the one about to be released. */
  predicate Lone(sh: Shapes, h: Heap, o: Addr) {
    IsLive(h, o) && o < |sh| && sh[o].kind.Ordinary? && h.cells[o].rc == 1 && h.cells[o].slots == []
  }

  lemma {:induction false} LoneRelease(sh: Shapes, h: Heap, o: Addr)
    requires |sh| == |h.cells| && Lone(sh, h, o)
    ensures var r := Release(sh, h, o);
            && r.finalized == h.finalized + [o] && |r.cells| == |h.cells|
            && forall x :: 0 <= x < |sh| && x != o ==> r.cells[x] == h.cells[x]
  {
    var h1 := SetRc(h, o, 0);
    var h2 := h1.(finalized := h.finalized + [o]);
    assert ClearFrom(sh, h2, o, 0) == h2;
    assert Release(sh, h, o) == Dispose(sh, h2, o);
  }

  /** So entries that nothing else keeps are finalized newest first. */
  lemma {:induction false} PopFinalizesNewestFirst(sh: Shapes, h: Heap, pool: seq<Addr>, marker: nat)
    requires |sh| == |h.cells| && marker <= |pool|
    requires forall k :: marker <= k < |pool| ==> Lone(sh, h, pool[k])
    requires forall j, k :: marker <= j < k < |pool| ==> pool[j] != pool[k]
    ensures var log := PopTo(sh, h, pool, marker).finalized;
            && |log| == |h.finalized| + |pool| - marker && h.finalized <= log
            && forall i :: |h.finalized| <= i < |log| ==> log[i] == pool[|pool| - 1 - (i - |h.finalized|)]
    decreases |pool|
  {
    hide Release;
    if |pool| > marker {
      var n := |pool| - 1;
      var h1 := Release(sh, h, pool[n]);
      LoneRelease(sh, h, pool[n]);
      forall k | marker <= k < n ensures Lone(sh, h1, pool[..n][k]) {
        assert Lone(sh, h, pool[k]) && pool[k] != pool[n];
      }
      PopFinalizesNewestFirst(sh, h1, pool[..n], marker);
      PrependsNewest(h.finalized, pool, marker, PopTo(sh, h1, pool[..n], marker).finalized);
    }
  }

  lemma {:induction false} PrependsNewest(base: seq<Addr>, pool: seq<Addr>, marker: nat, log: seq<Addr>)
    requires marker < |pool| && |log| == |base| + |pool| - marker
    requires var n := |pool| - 1;
             && base + [pool[n]] <= log
             && forall i :: |base| + 1 <= i < |log| ==> log[i] == pool[..n][n - 1 - (i - |base| - 1)]
    ensures base <= log && forall i :: |base| <= i < |log| ==> log[i] == pool[|pool| - 1 - (i - |base|)]
  {
    assert base == (base + [pool[|pool| - 1]])[..|base|];
  }

  lemma StepKeeps(w: World, op: Op)
    requires Good(w) && Legal(w, op)
    ensures Good(Step(w, op))
  {
    match op
    case Alloc(a, n, trivial) => NewBlockKeeps(w, op, Shape(Ordinary, trivial));
    case AllocInPlace(a, n) => NewBlockKeeps(w, op, Shape(Immortal, false));
    case AllocEmbedded(p, k, x, n, trivial) => NewEmbeddedKeeps(w, p, k, x, n, trivial);
    case RetainOp(o) =>
      RetainKeeps(w.sh, w.heap, o, Outside(w));
      assert CountedAt(w, o) ==> Outside(Step(w, op)) == Outside(w) + multiset{o};
    case ReleaseOp(o) => ReleaseOpKeeps(w, o);
    case Store(p, i, v) => StoreKeeps(w.sh, w.heap, p, i, v, Outside(w));
    case Autorelease(o, recorded) => AutoreleaseKeeps(w, o, recorded);
    case Push(_) =>
    case Pop(token) =>
      PopKeeps(w.sh, w.heap, w.client, w.pool, if token > |w.pool| then |w.pool| else token);
  }

  lemma NewBlockKeeps(w: World, op: Op, shape: Shape)
    requires Good(w) && Legal(w, op)
    requires (op.Alloc? && shape == Shape(Ordinary, op.trivial))
             || (op.AllocInPlace? && shape == Shape(Immortal, false))
    ensures Good(Step(w, op))
  {
    NewCellKeeps(w.sh, w.heap, Outside(w), op.a, shape, op.slots);
    PooledSame(w.sh, Step(w, op).sh, w.pool);
    assert op.Alloc? ==> Outside(Step(w, op)) == Outside(w) + multiset{op.a};
  }

  lemma ReleaseOpKeeps(w: World, o: Addr)
    requires Good(w) && Legal(w, ReleaseOp(o))
    ensures Good(Step(w, ReleaseOp(o)))
  {
    hide CountsOk, SlotsOk, HandlesOk, Pooled;
    if CountedAt(w, o) {
      var ext := (w.client - multiset{o}) + Pooled(w.sh, w.pool);
      assert Outside(w) == ext + multiset{o};
      ReleaseKeeps(w.sh, w.heap, o, ext, {});
    } else if o != NIL {
      OwnedStays(w.sh, w.heap, o, Outside(w));
    }
  }

  lemma AutoreleaseKeeps(w: World, o: Addr, recorded: bool)
    requires Good(w) && Legal(w, Autorelease(o, recorded))
    ensures Outside(Step(w, Autorelease(o, recorded))) == Outside(w)
  {
    PooledAppend(w.sh, w.pool, o);
  }

  /** A retain and a release of the same live object cancel. */
  lemma {:induction false} ReleaseUndoesRetain(w: World, o: Addr)
    requires Good(w) && IsLive(w.heap, o)
    ensures Legal(w, RetainOp(o)) && Legal(Step(w, RetainOp(o)), ReleaseOp(o))
    ensures Step(Step(w, RetainOp(o)), ReleaseOp(o)) == w
  {
    hide Good, Release, Retain, Unmanaged, Held, PopTo;
    LiveIsCounted(w, o);
    RetainThenRelease(w.sh, w.heap, o);
    var w1 := Step(w, RetainOp(o));
    assert Legal(w1, ReleaseOp(o)) && Step(w1, ReleaseOp(o)).heap == w.heap;
    if CountedAt(w, o) {
      assert w1.client - multiset{o} == w.client;
    }
  }

  lemma {:induction false} LiveIsCounted(w: World, o: Addr)
    requires Good(w) && IsLive(w.heap, o)
    ensures |w.sh| == |w.heap.cells| && (Unmanaged(w.sh, w.heap, o) || w.heap.cells[o].rc > 0)
  {
    hide GoodSlots, HandlesOk;
    assert Counted(w.sh, w.heap, Outside(w), {}, o) && Owned(w.sh, w.heap, {}, o);
  }

  lemma {:induction false} RetainThenRelease(sh: Shapes, h: Heap, o: Addr)
    requires |sh| == |h.cells| && IsLive(h, o) && (Unmanaged(sh, h, o) || h.cells[o].rc > 0)
    ensures Release(sh, Retain(sh, h, o), o) == h && IsLive(Retain(sh, h, o), o)
    ensures |Retain(sh, h, o).cells| == |sh|
  {
    hide Destroy, Shrinks;
    var h1 := Retain(sh, h, o);
    assert h1.cells[o := h.cells[o]] == h.cells;
  }

  /** With an open pool and room in it, an autorelease is a release put off until the pool is popped. */
  lemma {:induction false} AutoreleaseDefersRelease(w: World, o: Addr)
    requires Good(w) && Legal(w, ReleaseOp(o)) && w.marks != []
    ensures var (now, later) := (Step(w, ReleaseOp(o)), Step(Step(w, Autorelease(o, true)), Pop(|w.pool|)));
            later.sh == now.sh && later.heap == now.heap && later.client == now.client && later.pool == now.pool
    ensures Step(w, Autorelease(o, true)).heap == w.heap
  {
    hide CountsOk, OwnersOk, SlotsOk, HandlesOk;
    var w1 := Step(w, Autorelease(o, true));
    var n := |w.pool|;
    if o == NIL {
      assert PopTo(w.sh, w.heap, w.pool, n) == w.heap && w.pool[..n] == w.pool;
    } else {
      assert w1.pool[n] == o && w1.pool[..n] == w.pool;
      assert PopTo(w.sh, w.heap, w1.pool, n) == PopTo(w.sh, Release(w.sh, w.heap, o), w.pool, n);
    }
  }

  /** Without a pool, or without room in it, the object is left as it was. */
  lemma AutoreleaseOutsidePools(w: World, o: Addr, recorded: bool)
    requires Legal(w, Autorelease(o, recorded)) && (w.marks == [] || !recorded)
    ensures Step(w, Autorelease(o, recorded)) == w
  {
  }

  /** A pool popped right after it was pushed leaves everything as it was. */
  lemma {:induction false} PopUndoesPush(w: World)
    requires |w.sh| == |w.heap.cells|
    ensures Step(Step(w, Push(true)), Pop(|w.pool|)) == w
  {
    var w1 := Step(w, Push(true));
    assert w1.marks[..|w1.marks| - 1] == w.marks && w.pool[..|w.pool|] == w.pool;
  }

  /** The invariant holds after every legal run. */
  lemma {:induction false} RunKeeps(w: World, ops: seq<Op>)
    requires Good(w) && LegalRun(w, ops)
    ensures Good(Run(w, ops))
    decreases |ops|
  {
    if ops != [] {
      StepKeeps(w, ops[0]);
      RunKeeps(Step(w, ops[0]), ops[1..]);
    }
  }

  /** A process that has allocated nothing yet. */
  ghost predicate Initial(w: World) {
    && |w.sh| == |w.heap.cells| > 0
    && (forall x :: 0 <= x < |w.sh| ==> w.sh[x].kind.Ordinary? && !w.heap.cells[x].live && w.heap.cells[x].slots == [])
    && w.client == multiset{} && w.pool == [] && w.marks == [] && w.heap.finalized == [] && w.heap.strays == {}
  }

  lemma InitialGood(w: World)
    requires Initial(w)
    ensures Good(w)
  {
    forall x | 0 <= x < |w.sh| ensures Counted(w.sh, w.heap, Outside(w), {}, x) {}
  }

  /** After any run from the start: the count of a live object is what callers own, plus the strong slots that
      hold it, plus its pool entries, and is never zero; what callers own is live, and so is what pools hold
      and strong slots hold, except for the address of embedded storage, which may be stale. */
  lemma {:induction false} CountsAreExact(w0: World, ops: seq<Op>)
    requires Initial(w0) && LegalRun(w0, ops)
    ensures var w := Run(w0, ops);
            && |w.sh| == |w.heap.cells|
            && (forall x: Addr :: CountedAt(w, x) ==>
                  w.heap.cells[x].rc == w.client[x] + Refs(w.heap.cells)[x] + multiset(w.pool)[x] > 0)
            && (forall x: Addr :: x in w.client ==> CountedAt(w, x))
            && (forall x: Addr :: NIL < x < |w.sh| && w.sh[x].kind.Ordinary? && x in w.pool ==> CountedAt(w, x))
            && (forall y, j :: 0 <= y < |w.sh| && 0 <= j < |w.heap.cells[y].slots| ==>
                  var v := w.heap.cells[y].slots[j];
                  v == NIL || IsLive(w.heap, v) || (v < |w.sh| && w.sh[v].kind.Embedded?))
  {
    hide Pooled, Refs;
    InitialGood(w0);
    RunKeeps(w0, ops);
    var w := Run(w0, ops);
    forall x: Addr | x in w.client ensures CountedAt(w, x) {
      assert x in Outside(w);
    }
    forall x: Addr | NIL < x < |w.sh| && w.sh[x].kind.Ordinary? && x in w.pool ensures CountedAt(w, x) {
      PooledCount(w.sh, w.pool, x);
      assert x in Outside(w);
    }
    forall x: Addr | CountedAt(w, x)
      ensures w.heap.cells[x].rc == w.client[x] + Refs(w.heap.cells)[x] + multiset(w.pool)[x] > 0
    {
      PooledCount(w.sh, w.pool, x);
      assert Counted(w.sh, w.heap, Outside(w), {}, x);
    }
    forall y, j | 0 <= y < |w.sh| && 0 <= j < |w.heap.cells[y].slots|
      ensures var v := w.heap.cells[y].slots[j];
              v == NIL || IsLive(w.heap, v) || (v < |w.sh| && w.sh[v].kind.Embedded?)
    {
      assert GoodSlots(w.sh, w.heap, y);
      assert MayHold(w.sh, w.heap, w.heap.cells[y].slots[j]);
    }
  }

  /** After any run, embedded storage is live exactly when its owner slot holds it; then its count is
      one and retain and release do nothing. */
  lemma {:induction false} EmbeddedIsOwned(w0: World, ops: seq<Op>, x: Addr)
    requires Initial(w0) && LegalRun(w0, ops) && x < |Run(w0, ops).sh| && Run(w0, ops).sh[x].kind.Embedded?
    ensures var w := Run(w0, ops);
            && |w.sh| == |w.heap.cells|
            && (IsLive(w.heap, x) <==> OwnerHolds(w.sh, w.heap, x))
            && (IsLive(w.heap, x) ==>
                  w.heap.cells[x].rc == 1 && Retain(w.sh, w.heap, x) == w.heap && Release(w.sh, w.heap, x) == w.heap)
  {
    InitialGood(w0);
    RunKeeps(w0, ops);
    var w := Run(w0, ops);
    assert Owned(w.sh, w.heap, {}, x);
  }
}

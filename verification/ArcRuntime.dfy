/** The runtime entry points, with their one-entry header cache, autorelease stack and clearing loop,
    proved against the functions of `Arc`. */
module ArcRuntime {
  import opened Arc
  import opened ArcRun

  /** One turn of the clearing loop. */
  lemma ClearStep(sh: Shapes, h: Heap, o: Addr, i: nat)
    requires |sh| == |h.cells| && o < |h.cells| && i <= |h.cells[o].slots|
    ensures ClearFrom(sh, h, o, i) ==
            if i == |h.cells[o].slots| then h
            else if h.cells[o].slots[i] == NIL then ClearFrom(sh, h, o, i + 1)
            else ClearFrom(sh, Drop(sh, SetSlot(h, o, i, NIL), h.cells[o].slots[i]), o, i + 1)
  {
  }

  lemma ShrinksSelf(h: Heap)
    ensures Shrinks(h, h)
  {
  }

  lemma ShrinksFacts(a: Heap, b: Heap, o: Addr)
    requires Shrinks(a, b) && o < |a.cells|
    ensures |b.cells| == |a.cells| && |b.cells[o].slots| == |a.cells[o].slots| && Held(b.cells) <= Held(a.cells)
  {
  }

  lemma {:induction false} ReleaseOfNothing(sh: Shapes, h: Heap, o: Addr)
    requires |sh| == |h.cells| && !IsLive(h, o)
    ensures Arc.Release(sh, h, o) == h
  {
  }

  /** A hidden slot of a parent: the ivar that owns it, its storage, and whether the class and size asked
      for suit it. */
  datatype ValueSlot = ValueSlot(owner: nat, storage: Addr, compatible: bool)

  predicate InsideOf(h: Heap, p: Addr, slot: ValueSlot) {
    p < slot.storage < |h.cells| && slot.owner < |h.cells[p].slots|
  }

  predicate Usable(h: Heap, p: Addr, slot: ValueSlot) {
    InsideOf(h, p, slot) && slot.compatible && h.cells[p].slots[slot.owner] == NIL && !h.cells[slot.storage].live
  }

  function FirstUsable(h: Heap, p: Addr, slots: seq<ValueSlot>, i: nat): (k: nat)
    requires i <= |slots|
    ensures i <= k <= |slots| && (k < |slots| ==> Usable(h, p, slots[k]))
    ensures forall j :: i <= j < k ==> !Usable(h, p, slots[j])
    decreases |slots| - i
  {
    if i == |slots| || Usable(h, p, slots[i]) then i else FirstUsable(h, p, slots, i + 1)
  }

  class Runtime {
    var sh: Shapes
    var heap: Heap
    var lastObject: Addr
    var lastHeader: Addr
    var pool: seq<Addr>
    var marks: seq<nat>

    ghost predicate Valid()
      reads this
    {
      && |sh| == |heap.cells|
      && !IsLive(heap, NIL)
      && CacheCoherent()
    }

    /** The cache is empty or holds a live object and that object's own header. */
    ghost predicate CacheCoherent()
      reads this
    {
      lastHeader == lastObject && (lastObject == NIL || IsLive(heap, lastObject))
    }

    /** The uncached lookup: a live object has a header, anything else has none. */
    function HeaderFromObject(o: Addr): Addr
      reads this
    {
      if IsLive(heap, o) then o else NIL
    }

    method HeaderFromHeapCandidate(o: Addr) returns (hdr: Addr)
      requires Valid()
      modifies this`lastObject, this`lastHeader
      ensures Valid() && hdr == HeaderFromObject(o)
    {
      if o == lastObject {
        return lastHeader;
      }
      if o == NIL {
        return NIL;
      }
      hdr := HeaderFromObject(o);
      if hdr == NIL {
        return;
      }
      lastObject, lastHeader := o, hdr;
    }

    /** sf_init_allocated_header: a new object, possibly at the address of a dead one. The cache can still
        be trusted, because the address it holds is that of a live object. */
    method InitHeader(a: Addr, shape: Shape, n: nat)
      requires Valid() && NIL < a < |heap.cells| && !IsLive(heap, a)
      modifies this`sh, this`heap
      ensures Valid() && sh == old(sh)[a := shape]
      ensures heap == old(heap).(cells := old(heap).cells[a := Cell(true, 1, Nils(n))])
    {
      sh := sh[a := shape];
      heap := heap.(cells := heap.cells[a := Cell(true, 1, Nils(n))]);
    }

    /** sf_alloc_embedded_value_object: the first compatible slot whose owner ivar is nil and whose storage
        is not live gives its storage, and the owner ivar holds the new object. */
    method AllocEmbedded(p: Addr, slots: seq<ValueSlot>, n: nat, trivial: bool) returns (obj: Addr)
      requires Valid() && IsLive(heap, p) && forall i :: 0 <= i < |slots| ==> InsideOf(heap, p, slots[i])
      modifies this`sh, this`heap
      ensures Valid()
      ensures var i := FirstUsable(old(heap), p, slots, 0);
              if i == |slots| then obj == NIL && sh == old(sh) && heap == old(heap)
              else
                && obj == slots[i].storage && sh == old(sh)[obj := Shape(Embedded(p, slots[i].owner), trivial)]
                && heap == SetSlot(old(heap).(cells := old(heap).cells[obj := Cell(true, 1, Nils(n))]), p,
                  slots[i].owner, obj)
    {
      var i := 0;
      while i < |slots|
        invariant i <= |slots| && FirstUsable(heap, p, slots, i) == FirstUsable(heap, p, slots, 0)
      {
        var slot := slots[i];
        assert InsideOf(heap, p, slot);
        if slot.compatible && heap.cells[p].slots[slot.owner] == NIL && !heap.cells[slot.storage].live {
          obj := slot.storage;
          InitHeader(obj, Shape(Embedded(p, slot.owner), trivial), n);
          heap := SetSlot(heap, p, slot.owner, obj);
          return;
        }
        i := i + 1;
      }
      return NIL;
    }

    predicate IsPlainLive(hdr: Addr)
      requires |sh| == |heap.cells|
      reads this
    {
      IsLive(heap, hdr) && sh[hdr].kind.Ordinary?
    }

    method RetainKnown(o: Addr)
      requires Valid() && IsLive(heap, o)
      modifies this`heap
      ensures Valid() && heap == Arc.Retain(sh, old(heap), o)
    {
      if sh[o].kind.Immortal? || !heap.cells[o].live || OwnerHolds(sh, heap, o) {
        return;
      }
      heap := SetRc(heap, o, heap.cells[o].rc + 1);
    }

    /** objc_retain. */
    method Retain(o: Addr) returns (r: Addr)
      requires Valid()
      modifies this`heap, this`lastObject, this`lastHeader
      ensures Valid() && r == o && heap == Arc.Retain(sh, old(heap), o)
    {
      r := o;
      if o == NIL {
        return;
      }
      var hdr := NIL;
      if o == lastObject {
        hdr := lastHeader;
        if IsPlainLive(hdr) {
          heap := SetRc(heap, hdr, heap.cells[hdr].rc + 1);
          return;
        }
      }
      if hdr == NIL {
        hdr := HeaderFromHeapCandidate(o);
      }
      if hdr != NIL {
        RetainKnown(o);
      }
    }

    /** objc_release. */
    method Release(o: Addr)
      requires Valid()
      modifies this`heap, this`lastObject, this`lastHeader
      ensures Valid() && heap == Arc.Release(sh, old(heap), o)
      decreases Held(heap.cells), 4
    {
      if o == NIL {
        return;
      }
      var hdr := NIL;
      if o == lastObject {
        hdr := lastHeader;
        if IsPlainLive(hdr) && heap.cells[hdr].rc > 1 {
          heap := SetRc(heap, hdr, heap.cells[hdr].rc - 1);
          return;
        }
      }
      if hdr == NIL {
        hdr := HeaderFromHeapCandidate(o);
      }
      if hdr != NIL {
        ReleaseKnown(o);
      }
    }

    method ReleaseKnown(o: Addr)
      requires Valid() && IsLive(heap, o)
      modifies this`heap, this`lastObject, this`lastHeader
      ensures Valid() && heap == Arc.Release(sh, old(heap), o)
      decreases Held(heap.cells), 3
    {
      if sh[o].kind.Immortal? || !heap.cells[o].live || OwnerHolds(sh, heap, o) {
        return;
      }
      var rc := heap.cells[o].rc;
      if rc > 1 {
        heap := SetRc(heap, o, rc - 1);
        return;
      }
      if rc == 0 {
        return;
      }
      heap := SetRc(heap, o, 0);
      Finish(o);
    }

    /** The tail shared by release and by the clearing loop's embedded branch: run dealloc and clear the
        strong ivars unless the class releases trivially, then dispose. */
    method Finish(o: Addr)
      requires Valid() && IsLive(heap, o)
      modifies this`heap, this`lastObject, this`lastHeader
      ensures Valid() && heap == Arc.Destroy(sh, old(heap), o)
      decreases Held(heap.cells), 2
    {
      heap := heap.(finalized := heap.finalized + [o]);
      if !sh[o].trivial {
        ClearIvars(o);
      }
      Dispose(o);
    }

    method ClearIvars(o: Addr)
      requires Valid() && IsLive(heap, o)
      modifies this`heap, this`lastObject, this`lastHeader
      ensures Valid() && heap == Arc.ClearFrom(sh, old(heap), o, 0)
      decreases Held(heap.cells), 1
    {
      hide ClearFrom, Drop, Arc.Destroy, SetSlot, Shrinks;
      var count := |heap.cells[o].slots|;
      var i := 0;
      ShrinksSelf(heap);
      while i < count
        invariant Valid() && Shrinks(old(heap), heap)
        invariant i <= count == |heap.cells[o].slots|
        invariant ClearFrom(sh, heap, o, i) == ClearFrom(sh, old(heap), o, 0)
      {
        ClearStep(sh, heap, o, i);
        if heap.cells[o].slots[i] != NIL {
          ghost var before := heap;
          ShrinksFacts(old(heap), heap, o);
          DropSlot(o, i);
          ShrinksFacts(before, heap, o);
          ShrinksTransitive(old(heap), before, heap);
        }
        i := i + 1;
      }
      ClearStep(sh, heap, o, i);
    }

    /** One slot of the clearing loop: nil it, then destroy or release what it held. */
    method DropSlot(o: Addr, i: nat)
      requires Valid() && o < |heap.cells| && i < |heap.cells[o].slots| && heap.cells[o].slots[i] != NIL
      modifies this`heap, this`lastObject, this`lastHeader
      ensures Valid() && Shrinks(old(heap), heap)
      ensures heap == Drop(sh, SetSlot(old(heap), o, i, NIL), old(heap.cells[o].slots[i]))
      decreases Held(heap.cells), 0
    {
      var was := heap.cells[o].slots[i];
      heap := SetSlot(heap, o, i, NIL);
      ghost var taken := heap;
      var hdr := HeaderFromHeapCandidate(was);
      if hdr != NIL && sh[hdr].kind.Embedded? {
        Finish(was);
      } else {
        Release(was);
      }
      ShrinksTransitive(old(heap), taken, heap);
    }

    /** sf_object_dispose: the cache forgets the object before its header stops being live. */
    method Dispose(o: Addr)
      requires Valid() && o < |heap.cells|
      modifies this`heap, this`lastObject, this`lastHeader
      ensures Valid() && heap == Arc.Dispose(sh, old(heap), o)
    {
      var hdr := HeaderFromHeapCandidate(o);
      if hdr == NIL || sh[hdr].kind.Immortal? {
        return;
      }
      if o == lastObject {
        lastObject, lastHeader := NIL, NIL;
      }
      if OwnerHolds(sh, heap, o) {
        heap := SetSlot(heap, sh[o].kind.parent, sh[o].kind.owner, NIL);
      }
      heap := heap.(cells := heap.cells[o := heap.cells[o].(live := false)],
                    strays := heap.strays + Inside(sh, heap, o));
    }

    /** objc_storeStrong on ivar slot `i` of `p`. */
    method StoreStrong(p: Addr, i: nat, v: Addr)
      requires Valid() && p < |heap.cells| && i < |heap.cells[p].slots|
      modifies this`heap, this`lastObject, this`lastHeader
      ensures Valid() && heap == Arc.StoreStrong(sh, old(heap), p, i, v)
    {
      var was := heap.cells[p].slots[i];
      if was == v {
        return;
      }
      if v != NIL {
        var hdr := HeaderFromHeapCandidate(v);
        if hdr != NIL {
          RetainKnown(v);
        } else {
          var _ := Retain(v);
        }
      }
      heap := SetSlot(heap, p, i, v);
      if was != NIL {
        var hdr := HeaderFromHeapCandidate(was);
        if hdr != NIL {
          ReleaseKnown(was);
        } else {
          Release(was);
        }
      }
    }

    /** sf_autorelease; `room` says whether the object array could grow. */
    method Autorelease(o: Addr, room: bool) returns (r: Addr)
      requires Valid()
      modifies this`pool, this`lastObject, this`lastHeader
      ensures Valid() && r == o
      ensures pool == if IsLive(heap, o) && marks != [] && room then old(pool) + [o] else old(pool)
    {
      r := o;
      var hdr := HeaderFromHeapCandidate(o);
      if hdr == NIL || marks == [] || !room {
        return;
      }
      pool := pool + [o];
    }

    /** objc_autoreleasePoolPush; the token is the stack height, whether or not a marker was recorded. */
    method PoolPush(room: bool) returns (token: nat)
      requires Valid()
      modifies this`marks
      ensures Valid() && token == |pool|
      ensures marks == if room then old(marks) + [token] else old(marks)
    {
      token := |pool|;
      if room {
        marks := marks + [token];
      }
    }

    /** objc_autoreleasePoolPop with a token holding `token`. */
    method PoolPop(token: nat)
      requires Valid()
      modifies this`heap, this`pool, this`marks, this`lastObject, this`lastHeader
      ensures Valid()
      ensures var n := if token > |old(pool)| then |old(pool)| else token;
              pool == old(pool)[..n] && heap == PopTo(sh, old(heap), old(pool), n)
      ensures marks == if old(marks) != [] && old(marks)[|old(marks)| - 1] == token then old(marks)[..|old(marks)| - 1]
              else old(marks)
    {
      hide Arc.Release, Arc.Shrinks;
      var marker := token;
      if |marks| > 0 {
        var top := marks[|marks| - 1];
        if top == marker {
          marks := marks[..|marks| - 1];
        }
      }
      if marker > |pool| {
        marker := |pool|;
      }
      ghost var marked := marks;
      while |pool| > marker
        invariant Valid() && sh == old(sh) && marker <= |pool| <= |old(pool)| && pool == old(pool)[..|pool|]
        invariant marks == marked && PopTo(sh, heap, pool, marker) == PopTo(sh, old(heap), old(pool), marker)
        decreases |pool|
      {
        var o := pool[|pool| - 1];
        pool := pool[..|pool| - 1];
        var hdr := HeaderFromHeapCandidate(o);
        if hdr != NIL {
          ReleaseKnown(o);
        } else {
          ReleaseOfNothing(sh, heap, o);
        }
      }
    }
  }

  ghost predicate Shows(rt: Runtime, w: World)
    reads rt
  {
    rt.Valid() && w == World(rt.sh, rt.heap, w.client, rt.pool, rt.marks)
  }

  /** The entry point a client calls for each operation. */
  method Perform(rt: Runtime, op: Op, ghost w: World)
    requires Shows(rt, w) && Legal(w, op)
    modifies rt
    ensures Shows(rt, Step(w, op))
  {
    hide Arc.Retain, Arc.Release, Arc.StoreStrong;
    match op
    case Alloc(a, n, trivial) => rt.InitHeader(a, Shape(Ordinary, trivial), n);
    case AllocInPlace(a, n) => rt.InitHeader(a, Shape(Immortal, false), n);
    case AllocEmbedded(p, k, x, n, trivial) => {
      assert Usable(rt.heap, p, ValueSlot(k, x, true));
      var obj := rt.AllocEmbedded(p, [ValueSlot(k, x, true)], n, trivial);
    }
    case RetainOp(o) => {
      var r := rt.Retain(o);
    }
    case ReleaseOp(o) => rt.Release(o);
    case Store(p, i, v) => rt.StoreStrong(p, i, v);
    case Autorelease(o, recorded) => {
      var r := rt.Autorelease(o, recorded);
    }
    case Push(recorded) => {
      var token := rt.PoolPush(recorded);
    }
    case Pop(token) => rt.PoolPop(token);
  }

  /** Over every legal run the entry points, cache included, do what the steps of the run say. */
  method PerformAll(rt: Runtime, ops: seq<Op>, ghost w0: World)
    requires Shows(rt, w0) && LegalRun(w0, ops)
    modifies rt
    ensures Shows(rt, Run(w0, ops))
  {
    hide Step, Legal;
    ghost var w := w0;
    var i := 0;
    assert ops[0..] == ops;
    while i < |ops|
      invariant i <= |ops| && Shows(rt, w) && LegalRun(w, ops[i..]) && Run(w, ops[i..]) == Run(w0, ops)
    {
      assert ops[i..][0] == ops[i] && ops[i..][1..] == ops[i + 1..];
      Perform(rt, ops[i], w);
      w := Step(w, ops[i]);
      i := i + 1;
    }
  }
}

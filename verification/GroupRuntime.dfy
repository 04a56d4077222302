/** The group bookkeeping as the runtime keeps it: each header points at its group root and at the
    next member, and the root holds the chain head and the count of live members. Every method is
    proved against the list of members in `GroupSpec`. */
module GroupRuntime {

  import opened Wrappers
  import opened GroupSpec

  /** `group` is nil outside a group; `head` and `count` mean something in a group root only. */
  datatype Header = Header(state: State, size: nat, alloc: nat, parent: Addr, group: Addr, next: Addr, head: Addr,
    count: nat)

  /** The number of live members of a chain. */
  ghost function LiveIn(objs: seq<Obj>, chain: seq<Addr>): nat {
    if chain == [] then 0
    else LiveIn(objs, chain[1..]) + (if chain[0] < |objs| && objs[chain[0]].state.Live? then 1 else 0)
  }

  lemma {:induction false} LiveInSame(objs: seq<Obj>, objs1: seq<Obj>, chain: seq<Addr>)
    requires forall i :: 0 <= i < |chain| ==>
               (chain[i] < |objs| && objs[chain[i]].state.Live? <==> chain[i] < |objs1| && objs1[chain[i]].state.Live?)
    ensures LiveIn(objs, chain) == LiveIn(objs1, chain)
  {
    if chain != [] {
      assert forall i :: 0 <= i < |chain[1..]| ==> chain[1..][i] == chain[i + 1];
      LiveInSame(objs, objs1, chain[1..]);
    }
  }

  lemma {:induction false} LiveInDeath(objs: seq<Obj>, chain: seq<Addr>, x: Addr, o: Obj)
    requires NoRepeats(chain) && x in chain && x < |objs| && objs[x].state.Live? && !o.state.Live?
    ensures LiveIn(objs, chain) == LiveIn(objs[x := o], chain) + 1
  {
    var rest := chain[1..];
    assert forall i :: 0 <= i < |rest| ==> rest[i] == chain[i + 1];
    if chain[0] == x {
      assert x !in rest;
      LiveInSame(objs, objs[x := o], rest);
    } else {
      LiveInDeath(objs, rest, x, o);
    }
  }

  lemma {:induction false} LiveInZero(objs: seq<Obj>, chain: seq<Addr>)
    ensures LiveIn(objs, chain) == 0 <==> !AnyLive(objs, chain)
  {
    if chain != [] {
      var rest := chain[1..];
      LiveInZero(objs, rest);
      if AnyLive(objs, rest) {
        var i :| 0 <= i < |rest| && rest[i] < |objs| && objs[rest[i]].state.Live?;
        assert chain[i + 1] == rest[i];
      }
      if AnyLive(objs, chain) {
        var i :| 0 <= i < |chain| && chain[i] < |objs| && objs[chain[i]].state.Live?;
        if i > 0 { assert rest[i - 1] == chain[i]; }
      }
    }
  }

  /** The header of member `i` points at member `i + 1`, or at nothing. */
  ghost predicate Follows(hdrs: seq<Header>, chain: seq<Addr>, i: nat)
    requires i < |chain|
  {
    chain[i] < |hdrs| && hdrs[chain[i]].next == if i + 1 < |chain| then chain[i + 1] else NIL
  }

  /** Following `next` from the head visits exactly the members, ends at the root, and the root counts
      the live ones. */
  ghost predicate Threaded(hdrs: seq<Header>, g: Groups, root: Addr)
    requires root in g.members
  {
    var chain := g.members[root];
    && |hdrs| == |g.objs| && root < |hdrs| && |chain| > 0
    && hdrs[root].head == chain[0]
    && hdrs[root].count == LiveIn(g.objs, chain)
    && forall i :: 0 <= i < |chain| ==> Follows(hdrs, chain, i)
  }

  ghost predicate Matches(h: Header, o: Obj) {
    && h.state == o.state && h.group == o.root
    && (!h.state.Free? ==> h.size == o.size && h.alloc == o.alloc && h.parent == o.parent)
  }

  ghost predicate Represents(hdrs: seq<Header>, events: seq<Event>, g: Groups) {
    && Inv(g) && |hdrs| == |g.objs| && events == g.events
    && (forall x :: 0 <= x < |hdrs| ==> Matches(hdrs[x], g.objs[x]))
    && AllThreaded(hdrs, g)
  }

  ghost predicate AllThreaded(hdrs: seq<Header>, g: Groups) {
    forall r :: r in g.members ==> Threaded(hdrs, g, r)
  }

  /** A chain that `a` is not in is still threaded when only `a` changed its link or its liveness. */
  lemma StillThreaded(hdrs: seq<Header>, g: Groups, hdrs1: seq<Header>, g1: Groups, r: Addr, a: Addr)
    requires r in g.members && Threaded(hdrs, g, r) && r in g1.members && g1.members[r] == g.members[r]
    requires |hdrs1| == |g1.objs| == |g.objs| && a !in g.members[r]
    requires forall x :: 0 <= x < |hdrs| && x != a ==>
               hdrs1[x].next == hdrs[x].next && (g1.objs[x].state.Live? <==> g.objs[x].state.Live?)
    requires hdrs1[r].head == hdrs[r].head && hdrs1[r].count == hdrs[r].count
    ensures Threaded(hdrs1, g1, r)
  {
    var chain := g.members[r];
    forall i | 0 <= i < |chain| ensures Follows(hdrs1, chain, i) {
      assert Follows(hdrs, chain, i);
    }
    LiveInSame(g.objs, g1.objs, chain);
  }

  lemma AllocRepresents(hdrs: seq<Header>, events: seq<Event>, g: Groups, a: Addr, size: nat, alloc: nat)
    requires Represents(hdrs, events, g) && Legal(g, Alloc(a, size, alloc))
    ensures Represents(hdrs[a := Header(Live, size, alloc, NIL, NIL, NIL, NIL, 0)], events + [Got(a, size, alloc)],
                       Step(g, Alloc(a, size, alloc)))
  {
    hide GoodChain, BlocksOk;
    var g1 := Step(g, Alloc(a, size, alloc));
    var hdrs1 := hdrs[a := Header(Live, size, alloc, NIL, NIL, NIL, NIL, 0)];
    StepKeeps(g, Alloc(a, size, alloc));
    assert Placed(g, a);
    NilIsFree(g);
    Unchained(g, a);
    forall r | r in g1.members ensures Threaded(hdrs1, g1, r) {
      StillThreaded(hdrs, g, hdrs1, g1, r, a);
    }
  }

  /** sf_header_init_group_root: the root of a new group heads a chain of one. */
  lemma InitRootRepresents(hdrs: seq<Header>, events: seq<Event>, g: Groups, p: Addr)
    requires Represents(hdrs, events, g) && IsLive(g, p) && g.objs[p].root == NIL
    ensures Represents(hdrs[p := hdrs[p].(group := p, next := NIL, head := p, count := 1)], events, WithGroup(g, p))
  {
    hide GoodChain, Placed, BlocksOk;
    var g1 := WithGroup(g, p);
    var hdrs1 := hdrs[p := hdrs[p].(group := p, next := NIL, head := p, count := 1)];
    WithGroupKeeps(g, p);
    NilIsFree(g);
    Unchained(g, p);
    forall r | r in g1.members ensures Threaded(hdrs1, g1, r) {
      if r == p {
        assert g1.members[p] == [p];
        assert LiveIn(g1.objs, [p]) == LiveIn(g1.objs, []) + 1;
      } else {
        StillThreaded(hdrs, g, hdrs1, g1, r, p);
      }
    }
  }

  /** The new member goes in front of the chain and the count goes up by one. */
  lemma LinkRepresents(hdrs: seq<Header>, events: seq<Event>, g: Groups, p: Addr, a: Addr, size: nat)
    requires Represents(hdrs, events, g) && IsLive(g, p) && g.objs[p].root != NIL && NIL < a < |g.objs|
    requires g.objs[a].state.Free?
    ensures var root := g.objs[p].root;
            && root < |hdrs| && root != a
            && Represents(LinkedHeaders(hdrs, p, a, size, root), events + [Got(a, size, hdrs[root].alloc)],
              Step(g, AllocChild(p, a, size, Linked)))
  {
    hide GoodChain, Placed, BlocksOk, Threaded;
    var root := g.objs[p].root;
    var g1 := Step(g, AllocChild(p, a, size, Linked));
    StepKeeps(g, AllocChild(p, a, size, Linked));
    LinkedIs(g, p, a, size);
    var hdrs1 := LinkedHeaders(hdrs, p, a, size, root);
    hide Step;
    RootIsHeld(g, p);
    assert Matches(hdrs[root], g.objs[root]);
    LinkedMatch(hdrs, g, g1, p, a, size, root);
    NotYetChained(g, a);
    LinkThreads(hdrs, hdrs1, g, g1, root, a);
  }

  /** A free block is in no chain. */
  lemma NotYetChained(g: Groups, a: Addr)
    requires Inv(g) && NIL < a < |g.objs| && g.objs[a].state.Free?
    ensures forall r :: r in g.members ==> r != a && a !in g.members[r]
  {
    NilIsFree(g);
    assert Placed(g, a);
    Unchained(g, a);
  }

  lemma LinkedMatch(hdrs: seq<Header>, g: Groups, g1: Groups, p: Addr, a: Addr, size: nat, root: Addr)
    requires |hdrs| == |g.objs| && a < |hdrs| && root < |hdrs| && root != a && hdrs[root].alloc == g.objs[root].alloc
    requires forall x :: 0 <= x < |hdrs| ==> Matches(hdrs[x], g.objs[x])
    requires g1.objs == g.objs[a := Obj(Live, size, g.objs[root].alloc, p, root)]
    ensures forall x :: 0 <= x < |hdrs| ==> Matches(LinkedHeaders(hdrs, p, a, size, root)[x], g1.objs[x])
  {
    forall x | 0 <= x < |hdrs| ensures Matches(LinkedHeaders(hdrs, p, a, size, root)[x], g1.objs[x]) {
      assert Matches(hdrs[x], g.objs[x]);
    }
  }

  ghost function LinkedHeaders(hdrs: seq<Header>, p: Addr, a: Addr, size: nat, root: Addr): (r: seq<Header>)
    requires root < |hdrs| && a < |hdrs|
    ensures |r| == |hdrs|
  {
    var hdrs1 := hdrs[a := Header(Live, size, hdrs[root].alloc, p, root, hdrs[root].head, NIL, 0)];
    hdrs1[root := hdrs1[root].(head := a, count := hdrs1[root].count + 1)]
  }

  lemma LinkThreads(hdrs: seq<Header>, hdrs1: seq<Header>, g: Groups, g1: Groups, root: Addr, a: Addr)
    requires AllThreaded(hdrs, g) && root in g.members && g1.members == g.members[root := [a] + g.members[root]]
    requires |hdrs1| == |hdrs| == |g1.objs| == |g.objs| && root < |hdrs| && root != a < |hdrs|
    requires forall r :: r in g.members ==> r != a && a !in g.members[r]
    requires g1.objs[a].state.Live? && forall x :: 0 <= x < |g.objs| && x != a ==> g1.objs[x] == g.objs[x]
    requires hdrs1[a].next == hdrs[root].head
    requires hdrs1[root] == hdrs[root].(head := a, count := hdrs[root].count + 1)
    requires forall x :: 0 <= x < |hdrs| && x != a && x != root ==> hdrs1[x] == hdrs[x]
    ensures AllThreaded(hdrs1, g1)
  {
    forall r | r in g1.members ensures Threaded(hdrs1, g1, r) {
      assert Threaded(hdrs, g, r);
      if r == root {
        PushThreads(hdrs, hdrs1, g, g1, root, a);
      } else {
        StillThreaded(hdrs, g, hdrs1, g1, r, a);
      }
    }
  }

  lemma PushThreads(hdrs: seq<Header>, hdrs1: seq<Header>, g: Groups, g1: Groups, root: Addr, a: Addr)
    requires root in g.members && Threaded(hdrs, g, root) && root != a < |g.objs|
    requires root in g1.members && g1.members[root] == [a] + g.members[root]
    requires a !in g.members[root] && |g1.objs| == |g.objs| && g1.objs[a].state.Live?
    requires forall x :: 0 <= x < |g.objs| && x != a ==> g1.objs[x] == g.objs[x]
    requires |hdrs1| == |hdrs| && hdrs1[a].next == hdrs[root].head
    requires hdrs1[root].head == a && hdrs1[root].count == hdrs[root].count + 1
    requires forall x :: 0 <= x < |hdrs| && x != a ==> hdrs1[x].next == hdrs[x].next
    ensures Threaded(hdrs1, g1, root)
  {
    var chain, chain1 := g.members[root], g1.members[root];
    assert chain1[1..] == chain;
    LiveInSame(g.objs, g1.objs, chain);
    forall i | 0 <= i < |chain1| ensures Follows(hdrs1, chain1, i) {
      if i > 0 {
        assert chain1[i] == chain[i - 1] && Follows(hdrs, chain, i - 1);
      }
    }
  }

  /** What a child allocation runs into, given which of its allocations can succeed. */
  ghost function Fate(g: Groups, p: Addr, groupRoom: bool, blockRoom: bool, linkRoom: bool): Outcome {
    if p < |g.objs| && g.objs[p].root == NIL && !groupRoom then NoGroupState
    else if !blockRoom then NoMemory
    else if !linkRoom then NotLinked
    else Linked
  }

  lemma AllocatorOfGroup(g: Groups, p: Addr)
    requires Inv(g) && p < |g.objs| && g.objs[p].root != NIL
    ensures g.objs[p].root < |g.objs| && g.objs[g.objs[p].root].alloc == g.objs[p].alloc
  {
    assert Placed(g, p);
    assert GoodChain(g, g.objs[p].root);
  }

  function MarkedDead(hdrs: seq<Header>, x: Addr, root: Addr): (r: seq<Header>)
    requires x < |hdrs| && root < |hdrs|
    ensures |r| == |hdrs|
    ensures forall y :: 0 <= y < |hdrs| && y != x && y != root ==> r[y] == hdrs[y]
    ensures forall y :: 0 <= y < |hdrs| ==>
            r[y] == hdrs[y].(state := if y == x then Disposed else hdrs[y].state, count := r[y].count)
  {
    var hdrs1 := hdrs[x := hdrs[x].(state := Disposed)];
    if hdrs1[root].count > 0 then hdrs1[root := hdrs1[root].(count := hdrs1[root].count - 1)] else hdrs1
  }

  /** The count the root is left with tells whether a member is still live. */
  lemma DeathCounts(hdrs: seq<Header>, events: seq<Event>, g: Groups, x: Addr)
    requires Represents(hdrs, events, g) && IsLive(g, x) && g.objs[x].root != NIL
    ensures var root, objs1 := g.objs[x].root, g.objs[x := g.objs[x].(state := Disposed)];
            && root < |hdrs| && root in g.members
            && MarkedDead(hdrs, x, root)[root].count == LiveIn(objs1, g.members[root])
            && (MarkedDead(hdrs, x, root)[root].count > 0 <==> AnyLive(objs1, g.members[root]))
  {
    var root := g.objs[x].root;
    RootIsHeld(g, x);
    assert Threaded(hdrs, g, root);
    var objs1 := g.objs[x := g.objs[x].(state := Disposed)];
    LiveInDeath(g.objs, g.members[root], x, objs1[x]);
    LiveInZero(objs1, g.members[root]);
  }

  /** A member's death that is not the group's last. */
  lemma DeathRepresents(hdrs: seq<Header>, events: seq<Event>, g: Groups, x: Addr)
    requires Represents(hdrs, events, g) && IsLive(g, x) && g.objs[x].root != NIL && g.objs[x].root < |hdrs|
    requires MarkedDead(hdrs, x, g.objs[x].root)[g.objs[x].root].count > 0
    ensures Represents(MarkedDead(hdrs, x, g.objs[x].root), events, Step(g, Dispose(x)))
  {
    hide GoodChain, Placed, BlocksOk, Threaded, LiveIn;
    var root := g.objs[x].root;
    var hdrs1 := MarkedDead(hdrs, x, root);
    var g1 := g.(objs := g.objs[x := g.objs[x].(state := Disposed)]);
    DeathCounts(hdrs, events, g, x);
    assert Step(g, Dispose(x)) == g1;
    assert Inv(g1) by { StepKeeps(g, Dispose(x)); }
    assert AllThreaded(hdrs1, g1) by {
      NotInOther(g, x);
      DeathThreads(hdrs, hdrs1, g, x, root);
    }
    assert forall y :: 0 <= y < |hdrs| ==> Matches(hdrs1[y], g1.objs[y]) by { DeathMatches(hdrs, g, x, root); }
  }

  lemma DeathMatches(hdrs: seq<Header>, g: Groups, x: Addr, root: Addr)
    requires |hdrs| == |g.objs| && x < |hdrs| && root < |hdrs| && g.objs[x].state.Live?
    requires forall y :: 0 <= y < |hdrs| ==> Matches(hdrs[y], g.objs[y])
    ensures forall y :: 0 <= y < |hdrs| ==>
            Matches(MarkedDead(hdrs, x, root)[y], g.objs[x := g.objs[x].(state := Disposed)][y])
  {
    forall y | 0 <= y < |hdrs| ensures Matches(MarkedDead(hdrs, x, root)[y],
      g.objs[x := g.objs[x].(state := Disposed)][y]) {
      assert Matches(hdrs[y], g.objs[y]);
    }
  }

  lemma DeathThreads(hdrs: seq<Header>, hdrs1: seq<Header>, g: Groups, x: Addr, root: Addr)
    requires AllThreaded(hdrs, g) && IsLive(g, x) && root in g.members && |hdrs1| == |hdrs| == |g.objs| && root < |hdrs|
    requires forall r :: r in g.members && r != root ==> x !in g.members[r] && r != x
    requires forall y :: 0 <= y < |hdrs| ==> hdrs1[y].next == hdrs[y].next && hdrs1[y].head == hdrs[y].head
    requires forall y :: 0 <= y < |hdrs| && y != root ==> hdrs1[y].count == hdrs[y].count
    requires hdrs1[root].count == LiveIn(g.objs[x := g.objs[x].(state := Disposed)], g.members[root])
    ensures AllThreaded(hdrs1, g.(objs := g.objs[x := g.objs[x].(state := Disposed)]))
  {
    var g1 := g.(objs := g.objs[x := g.objs[x].(state := Disposed)]);
    forall r | r in g.members ensures Threaded(hdrs1, g1, r) {
      assert Threaded(hdrs, g, r);
      if r != root {
        StillThreaded(hdrs, g, hdrs1, g1, r, x);
      } else {
        var chain := g.members[r];
        forall i | 0 <= i < |chain| ensures Follows(hdrs1, chain, i) {
          assert Follows(hdrs, chain, i);
        }
      }
    }
  }

  lemma LoneDeathRepresents(hdrs: seq<Header>, events: seq<Event>, g: Groups, x: Addr)
    requires Represents(hdrs, events, g) && IsLive(g, x) && g.objs[x].root == NIL
    ensures Represents(hdrs[x := hdrs[x].(state := Free)], events + [Gave(x, hdrs[x].size, hdrs[x].alloc)],
            Step(g, Dispose(x)))
  {
    hide GoodChain, Placed, BlocksOk;
    var g1 := Step(g, Dispose(x));
    assert Matches(hdrs[x], g.objs[x]);
    assert Inv(g1) by { StepKeeps(g, Dispose(x)); }
    NilIsFree(g);
    Unchained(g, x);
    forall r | r in g1.members ensures Threaded(hdrs[x := hdrs[x].(state := Free)], g1, r) {
      StillThreaded(hdrs, g, hdrs[x := hdrs[x].(state := Free)], g1, r, x);
    }
  }

  ghost predicate Walkable(hdrs: seq<Header>, objs: seq<Obj>, chain: seq<Addr>) {
    && |hdrs| == |objs|
    && (forall i :: 0 <= i < |chain| ==> Follows(hdrs, chain, i))
    && (forall i :: 0 <= i < |chain| ==> NIL < chain[i] < |hdrs| && hdrs[chain[i]].size == objs[chain[i]].size)
  }

  /** The chain the freeing loop walks after the root's bookkeeping was reset. */
  lemma ChainIsWalkable(hdrs: seq<Header>, events: seq<Event>, g: Groups, x: Addr, hdrs1: seq<Header>)
    requires Represents(hdrs, events, g) && IsLive(g, x) && g.objs[x].root != NIL && g.objs[x].root in g.members
    requires |hdrs1| == |hdrs|
    requires forall y :: 0 <= y < |hdrs| && y != g.objs[x].root ==>
             hdrs1[y].next == hdrs[y].next && hdrs1[y].size == hdrs[y].size
    requires g.objs[x].root < |hdrs| && hdrs1[g.objs[x].root].next == NIL
    requires hdrs1[g.objs[x].root].size == hdrs[g.objs[x].root].size
    ensures var chain := g.members[g.objs[x].root];
            && NoRepeats(chain) && |chain| > 0 && hdrs[g.objs[x].root].head == chain[0]
            && hdrs[g.objs[x].root].alloc == g.objs[g.objs[x].root].alloc
            && x in chain && g.objs[x].root in chain
            && Walkable(hdrs1, g.objs, chain)
  {
    var root := g.objs[x].root;
    var chain := g.members[root];
    RootIsHeld(g, x);
    assert Threaded(hdrs, g, root);
    assert Matches(hdrs[root], g.objs[root]);
    assert chain[|chain| - 1] == root;
    forall i | 0 <= i < |chain|
      ensures Follows(hdrs1, chain, i) && NIL < chain[i] < |hdrs1| && hdrs1[chain[i]].size == g.objs[chain[i]].size
    {
      assert Follows(hdrs, chain, i);
      assert Matches(hdrs[chain[i]], g.objs[chain[i]]);
    }
  }

  /** The headers after the last live member of a group was marked dead. */
  ghost predicate LastDeath(hdrs0: seq<Header>, hdrs: seq<Header>, events: seq<Event>, g: Groups, x: Addr, root: Addr,
                            chain: seq<Addr>)
  {
    && Represents(hdrs0, events, g) && IsLive(g, x) && g.objs[x].root == root != NIL
    && root in g.members && g.members[root] == chain
    && !AnyLive(g.objs[x := g.objs[x].(state := Disposed)], chain)
    && root < |hdrs0| && hdrs == MarkedDead(hdrs0, x, root)
  }

  /** Once the last member is dead, freeing the chain and forgetting the root's bookkeeping is the
      specified step. */
  lemma LastDeathRepresents(hdrs: seq<Header>, events: seq<Event>, g: Groups, x: Addr, hdrs1: seq<Header>)
    requires Represents(hdrs, events, g) && IsLive(g, x) && g.objs[x].root != NIL && g.objs[x].root in g.members
    requires !AnyLive(g.objs[x := g.objs[x].(state := Disposed)], g.members[g.objs[x].root])
    requires |hdrs1| == |hdrs|
    requires forall y :: 0 <= y < |hdrs| ==>
               if y in g.members[g.objs[x].root] then hdrs1[y].state.Free? && hdrs1[y].group == NIL
                 else hdrs1[y] == hdrs[y]
    ensures var g1 := Step(g, Dispose(x)); Represents(hdrs1, g1.events, g1)
  {
    var root := g.objs[x].root;
    RootIsHeld(g, x);
    var g1 := Step(g, Dispose(x));
    assert Inv(g1) by { StepKeeps(g, Dispose(x)); }
    LastDeathIs(g, x);
    hide Step, Inv, Matches, AllThreaded, AnyLive, ChainsOk;
    FreedMatch(hdrs, g.objs, hdrs1, g1.objs, g.members[root]);
    OthersThreaded(hdrs, g, hdrs1, g1, root);
  }

  lemma FreedMatch(hdrs: seq<Header>, objs: seq<Obj>, hdrs1: seq<Header>, objs1: seq<Obj>, chain: seq<Addr>)
    requires |hdrs| == |objs| == |hdrs1| == |objs1| && forall y :: 0 <= y < |hdrs| ==> Matches(hdrs[y], objs[y])
    requires forall y :: 0 <= y < |hdrs| ==> if y in chain then hdrs1[y].state.Free? && hdrs1[y].group == NIL
             else hdrs1[y] == hdrs[y]
    requires forall y :: 0 <= y < |hdrs| ==> if y in chain then objs1[y].state.Free? && objs1[y].root == NIL
             else objs1[y] == objs[y]
    ensures forall y :: 0 <= y < |hdrs| ==> Matches(hdrs1[y], objs1[y])
  {
    forall y | 0 <= y < |hdrs| ensures Matches(hdrs1[y], objs1[y]) {
      assert Matches(hdrs[y], objs[y]);
    }
  }

  lemma OthersThreaded(hdrs: seq<Header>, g: Groups, hdrs1: seq<Header>, g1: Groups, root: Addr)
    requires Inv(g) && AllThreaded(hdrs, g) && root in g.members && g1.members == g.members - {root}
    requires |hdrs1| == |g1.objs| == |g.objs|
    requires forall y :: 0 <= y < |hdrs| && y !in g.members[root] ==> hdrs1[y] == hdrs[y] && g1.objs[y] == g.objs[y]
    ensures AllThreaded(hdrs1, g1)
  {
    hide BlocksOk, PlacesOk;
    forall r | r in g1.members ensures Threaded(hdrs1, g1, r) {
      assert GoodChain(g, r) && GoodChain(g, root) && Threaded(hdrs, g, r);
      OtherThreadKept(hdrs, g, hdrs1, g1, r, root);
    }
  }

  lemma OtherThreadKept(hdrs: seq<Header>, g: Groups, hdrs1: seq<Header>, g1: Groups, r: Addr, root: Addr)
    requires r in g.members && root in g.members && r != root && GoodChain(g, r) && GoodChain(g, root)
    requires Threaded(hdrs, g, r)
    requires r in g1.members && g1.members[r] == g.members[r] && |hdrs1| == |g1.objs| == |g.objs|
    requires forall y :: 0 <= y < |hdrs| && y !in g.members[root] ==> hdrs1[y] == hdrs[y] && g1.objs[y] == g.objs[y]
    ensures Threaded(hdrs1, g1, r)
  {
    var chain := g.members[r];
    forall i | 0 <= i < |chain| ensures chain[i] !in g.members[root] {}
    assert chain[|chain| - 1] == r;
    LiveInSame(g.objs, g1.objs, chain);
    forall i | 0 <= i < |chain| ensures Follows(hdrs1, chain, i) {
      assert Follows(hdrs, chain, i);
    }
  }

  lemma WithGroupTwice(g: Groups, p: Addr)
    requires Inv(g) && IsLive(g, p)
    ensures WithGroup(WithGroup(g, p), p) == WithGroup(g, p)
  {
    assert p != NIL by { assert Placed(g, p); }
  }

  lemma FailuresAre(g: Groups, p: Addr, a: Addr, size: nat)
    requires Inv(g) && IsLive(g, p) && g.objs[p].root != NIL && NIL < a < |g.objs| && g.objs[a].state.Free?
    ensures var root := g.objs[p].root;
            && root < |g.objs|
            && Step(g, AllocChild(p, a, size, NoMemory)) == g
            && Step(g, AllocChild(p, a, size, NotLinked)) ==
               g.(events := g.events + [Got(a, size, g.objs[root].alloc), Gave(a, size, g.objs[root].alloc)])
  {
    RootIsHeld(g, p);
  }

  lemma SameChains(hdrs: seq<Header>, g: Groups, events: seq<Event>)
    requires AllThreaded(hdrs, g)
    ensures AllThreaded(hdrs, g.(events := events))
  {
    forall r | r in g.members ensures Threaded(hdrs, g.(events := events), r) {
      assert Threaded(hdrs, g, r);
    }
  }

  // ---------------------------------------------------------------- the headers after each operation

  ghost function AllocHeaders(hdrs: seq<Header>, a: Addr, size: nat, alloc: nat): seq<Header>
    requires a < |hdrs|
  {
    hdrs[a := Header(Live, size, alloc, NIL, NIL, NIL, NIL, 0)]
  }

  ghost function RootHeaders(hdrs: seq<Header>, p: Addr): seq<Header>
    requires p < |hdrs|
  {
    hdrs[p := hdrs[p].(group := p, next := NIL, head := p, count := 1)]
  }

  ghost function ChildHeaders(hdrs: seq<Header>, g: Groups, p: Addr, a: Addr, size: nat, outcome: Outcome): seq<Header>
    requires |hdrs| == |g.objs| && a < |hdrs|
  {
    if !IsLive(g, p) || outcome.NoGroupState? || RootOf(g, p) >= |hdrs| then hdrs
    else
      var hdrs1 := if g.objs[p].root == NIL then RootHeaders(hdrs, p) else hdrs;
      if outcome.Linked? then LinkedHeaders(hdrs1, p, a, size, RootOf(g, p)) else hdrs1
  }

  /** The whole chain freed, after the root's bookkeeping was reset. */
  ghost function FreedHeaders(hdrs: seq<Header>, chain: seq<Addr>, root: Addr): (r: seq<Header>)
    requires root < |hdrs|
    ensures |r| == |hdrs|
  {
    Freed(ResetRoot(hdrs, root), chain)
  }

  ghost function Freed(hdrs: seq<Header>, chain: seq<Addr>): (r: seq<Header>)
    ensures |r| == |hdrs|
  {
    seq(|hdrs|, y requires 0 <= y < |hdrs| => if y in chain then FreedHeader(hdrs[y]) else hdrs[y])
  }

  lemma FreedNone(hdrs: seq<Header>, chain: seq<Addr>)
    ensures Freed(hdrs, chain[..0]) == hdrs
  {
  }

  /** One more block of the chain freed. */
  lemma FreedStep(hdrs: seq<Header>, chain: seq<Addr>, i: nat)
    requires NoRepeats(chain) && i < |chain| && chain[i] < |hdrs|
    ensures Freed(hdrs, chain[..i])[chain[i]] == hdrs[chain[i]]
    ensures Freed(hdrs, chain[..i + 1]) == Freed(hdrs, chain[..i])[chain[i] := FreedHeader(hdrs[chain[i]])]
  {
    assert chain[..i + 1] == chain[..i] + [chain[i]];
    assert chain[i] !in chain[..i];
  }

  ghost function ResetRoot(hdrs: seq<Header>, root: Addr): (r: seq<Header>)
    requires root < |hdrs|
    ensures |r| == |hdrs|
  {
    hdrs[root := hdrs[root].(group := NIL, next := NIL, head := NIL, count := 0)]
  }

  ghost function FreedHeader(h: Header): Header {
    h.(state := Free, group := NIL, next := NIL, parent := NIL)
  }

  ghost function DisposedHeaders(hdrs: seq<Header>, g: Groups, x: Addr): seq<Header>
    requires |hdrs| == |g.objs|
  {
    if !IsLive(g, x) then hdrs
    else
      var root := g.objs[x].root;
      if root == NIL then hdrs[x := hdrs[x].(state := Free)]
      else if root >= |hdrs| || root !in g.members then hdrs
      else
        var hdrs1 := MarkedDead(hdrs, x, root);
        if hdrs1[root].count > 0 then hdrs1 else FreedHeaders(hdrs1, g.members[root], root)
  }

  ghost function NextHeaders(hdrs: seq<Header>, g: Groups, op: Op): seq<Header>
    requires |hdrs| == |g.objs| && Legal(g, op)
  {
    match op
    case Alloc(a, size, alloc) => AllocHeaders(hdrs, a, size, alloc)
    case AllocChild(p, a, size, outcome) => ChildHeaders(hdrs, g, p, a, size, outcome)
    case Dispose(x) => DisposedHeaders(hdrs, g, x)
  }

  class GroupHeap {
    var hdrs: seq<Header>
    var events: seq<Event>
    ghost var g: Groups

    ghost predicate Valid()
      reads this
    {
      Represents(hdrs, events, g)
    }

    constructor (n: nat)
      requires n > 0
      ensures Valid() && g == Start(n) && hdrs == seq(n, _ => Header(Free, 0, 0, NIL, NIL, NIL, NIL, 0))
    {
      hdrs := seq(n, _ => Header(Free, 0, 0, NIL, NIL, NIL, NIL, 0));
      events := [];
      g := Start(n);
    }

    /** sf_alloc_object. */
    method AllocObject(a: Addr, size: nat, alloc: nat)
      requires Valid() && Legal(g, Alloc(a, size, alloc))
      modifies this
      ensures Valid() && g == Step(old(g), Alloc(a, size, alloc)) && hdrs == AllocHeaders(old(hdrs), a, size, alloc)
    {
      AllocRepresents(hdrs, events, g, a, size, alloc);
      events := events + [Got(a, size, alloc)];
      hdrs := hdrs[a := Header(Live, size, alloc, NIL, NIL, NIL, NIL, 0)];
      g := Step(g, Alloc(a, size, alloc));
    }

    /** sf_header_init_group_root on an object that may be outside any group. */
    method EnsureGroup(p: Addr, room: bool) returns (ok: bool)
      requires Valid() && IsLive(g, p)
      modifies this`hdrs, this`g
      ensures Valid() && ok == (old(g).objs[p].root != NIL || room)
      ensures g == if ok then WithGroup(old(g), p) else old(g)
      ensures hdrs == if ok && old(g).objs[p].root == NIL then RootHeaders(old(hdrs), p) else old(hdrs)
    {
      assert Matches(hdrs[p], g.objs[p]);
      if hdrs[p].group != NIL {
        return true;
      }
      if !room {
        return false;
      }
      InitRootRepresents(hdrs, events, g, p);
      hdrs := hdrs[p := hdrs[p].(group := p, next := NIL, head := p, count := 1)];
      g := WithGroup(g, p);
      return true;
    }

    /** sf_alloc_heap_child_object: make sure the root has group bookkeeping, take a block from the
        root's allocator and link it in front of the chain. The three flags say which of the
        allocations behind it succeed; an unlinked block goes straight back. */
    method AllocChild(p: Addr, a: Addr, size: nat, groupRoom: bool, blockRoom: bool, linkRoom: bool) returns (obj: Addr)
      requires Valid() && NIL < a < |g.objs| && g.objs[a].state.Free?
      modifies this
      ensures Valid() && g == Step(old(g), Op.AllocChild(p, a, size, Fate(old(g), p, groupRoom, blockRoom, linkRoom)))
      ensures var grouped := IsLive(old(g), p) && (old(g).objs[p].root != NIL || groupRoom);
              && obj == (if grouped && blockRoom && linkRoom then a else NIL)
              && (!grouped ==> g == old(g))
              && (grouped && !blockRoom ==> g.events == old(g).events)
              && (grouped && blockRoom && !linkRoom ==>
                    |g.events| == |old(g).events| + 2 && old(g).events < g.events
                    && g.events[|g.events| - 2] == Got(a, size, old(g).objs[p].alloc)
                    && g.events[|g.events| - 1] == Gave(a, size, old(g).objs[p].alloc))
      ensures hdrs == ChildHeaders(old(hdrs), old(g), p, a, size, Fate(old(g), p, groupRoom, blockRoom, linkRoom))
    {
      hide GoodChain, Placed, BlocksOk, Threaded, LiveIn;
      assert p < |hdrs| ==> Matches(hdrs[p], g.objs[p]);
      if p >= |hdrs| || !hdrs[p].state.Live? {
        return NIL;
      }
      var root := if hdrs[p].group != NIL then hdrs[p].group else p;
      ghost var g0 := g;
      assert p != a;
      var ok := EnsureGroup(p, groupRoom);
      if !ok {
        return NIL;
      }
      WithGroupTwice(g0, p);
      WithGroupKeeps(g0, p);
      if g0.objs[p].root != NIL { AllocatorOfGroup(g0, p); }
      obj := Join(p, a, size, root, blockRoom, linkRoom);
    }

    /** The part of child allocation under the group lock. */
    method Join(p: Addr, a: Addr, size: nat, root: Addr, blockRoom: bool, linkRoom: bool) returns (obj: Addr)
      requires Valid() && NIL < a < |g.objs| && g.objs[a].state.Free? && IsLive(g, p) && root == g.objs[p].root != NIL
      modifies this
      ensures Valid() && g == Step(old(g), Op.AllocChild(p, a, size, Fate(old(g), p, true, blockRoom, linkRoom)))
      ensures obj == if blockRoom && linkRoom then a else NIL
      ensures hdrs == ChildHeaders(old(hdrs), old(g), p, a, size, Fate(old(g), p, true, blockRoom, linkRoom))
    {
      RootIsHeld(g, p);
      assert Threaded(hdrs, g, root) && Matches(hdrs[root], g.objs[root]);
      LiveInZero(g.objs, g.members[root]);
      if hdrs[root].count == 0 {
        return NIL;
      }
      var alloc := hdrs[root].alloc;
      FailuresAre(g, p, a, size);
      if !blockRoom {
        return NIL;
      }
      if !linkRoom {
        GiveBackKeeps(g, a, size, alloc);
        events := events + [Got(a, size, alloc), Gave(a, size, alloc)];
        g := g.(events := g.events + [Got(a, size, alloc), Gave(a, size, alloc)]);
        assert AllThreaded(hdrs, g) by { SameChains(hdrs, old(g), events); }
        return NIL;
      }
      LinkMember(p, a, size, root, alloc);
      return a;
    }

    method LinkMember(p: Addr, a: Addr, size: nat, root: Addr, alloc: nat)
      requires Valid() && NIL < a < |g.objs| && g.objs[a].state.Free? && IsLive(g, p) && root == g.objs[p].root != NIL
      requires root < |hdrs| && alloc == hdrs[root].alloc
      modifies this
      ensures Valid() && g == Step(old(g), Op.AllocChild(p, a, size, Linked))
      ensures hdrs == LinkedHeaders(old(hdrs), p, a, size, root)
    {
      hide Inv, Step, AllThreaded, Matches;
      LinkRepresents(hdrs, events, g, p, a, size);
      ghost var linked := LinkedHeaders(hdrs, p, a, size, root);
      g := Step(g, Op.AllocChild(p, a, size, Linked));
      events := events + [Got(a, size, alloc)];
      hdrs := hdrs[a := Header(Live, size, alloc, p, root, hdrs[root].head, NIL, 0)];
      hdrs := hdrs[root := hdrs[root].(head := a, count := hdrs[root].count + 1)];
      assert hdrs == linked;
    }

    /** sf_object_dispose for ordinary heap objects. */
    method Dispose(x: Addr)
      requires Valid()
      modifies this
      ensures Valid() && g == Step(old(g), Op.Dispose(x)) && hdrs == DisposedHeaders(old(hdrs), old(g), x)
    {
      assert x < |hdrs| ==> Matches(hdrs[x], g.objs[x]);
      if x >= |hdrs| || !hdrs[x].state.Live? {
        return;
      }
      if hdrs[x].group == NIL {
        LoneDeathRepresents(hdrs, events, g, x);
        events := events + [Gave(x, hdrs[x].size, hdrs[x].alloc)];
        hdrs := hdrs[x := hdrs[x].(state := Free)];
        g := Step(g, Op.Dispose(x));
      } else {
        DisposeMember(x, hdrs[x].group);
      }
    }

    /** The death of a group member: the count drops, and at zero the whole chain is freed. */
    method DisposeMember(x: Addr, root: Addr)
      requires Valid() && IsLive(g, x) && g.objs[x].root == root != NIL
      modifies this
      ensures Valid() && g == Step(old(g), Op.Dispose(x)) && hdrs == DisposedHeaders(old(hdrs), old(g), x)
    {
      hide GoodChain, Placed, BlocksOk, Threaded, LiveIn, Step;
      ghost var hdrs0, g0 := hdrs, g;
      DeathCounts(hdrs, events, g, x);
      hdrs := hdrs[x := hdrs[x].(state := Disposed)];
      if hdrs[root].count > 0 {
        hdrs := hdrs[root := hdrs[root].(count := hdrs[root].count - 1)];
      }
      assert hdrs == MarkedDead(hdrs0, x, root);
      if hdrs[root].count == 0 {
        FreeGroup(x, root, hdrs0, g.members[root]);
      } else {
        DeathRepresents(hdrs0, events, g0, x);
        g := Step(g0, Op.Dispose(x));
      }
    }

    method FreeGroup(x: Addr, root: Addr, ghost hdrs0: seq<Header>, ghost chain: seq<Addr>)
      requires LastDeath(hdrs0, hdrs, events, g, x, root, chain)
      modifies this
      ensures Valid() && g == Step(old(g), Op.Dispose(x)) && hdrs == FreedHeaders(old(hdrs), chain, root)
    {
      hide Inv, Step, AllThreaded, Matches, LiveIn, Walkable, Frees, AnyLive;
      ghost var events0, g0 := events, g;
      var head, alloc := hdrs[root].head, hdrs[root].alloc;
      hdrs := hdrs[root := hdrs[root].(group := NIL, next := NIL, head := NIL, count := 0)];
      ChainIsWalkable(hdrs0, events0, g0, x, hdrs);
      FreeMembers(head, alloc, chain, g0.objs);
      LastDeathIs(g0, x);
      LastDeathRepresents(hdrs0, events0, g0, x, hdrs);
      g := Step(g0, Op.Dispose(x));
    }

    /** free_group_members: walk the chain, freeing each block with its own size. */
    method FreeMembers(head: Addr, alloc: nat, ghost chain: seq<Addr>, ghost objs: seq<Obj>)
      requires NoRepeats(chain) && |chain| > 0 && head == chain[0]
      requires Walkable(hdrs, objs, chain)
      modifies this`hdrs, this`events
      ensures hdrs == Freed(old(hdrs), chain) && events == old(events) + Frees(objs, chain, alloc)
    {
      hide Freed;
      FreedNone(hdrs, chain);
      var member := head;
      ghost var i := 0;
      while member != NIL
        invariant i <= |chain| && hdrs == Freed(old(hdrs), chain[..i])
        invariant member == if i < |chain| then chain[i] else NIL
        invariant events + Frees(objs, chain[i..], alloc) == old(events) + Frees(objs, chain, alloc)
        decreases |chain| - i
      {
        assert Follows(old(hdrs), chain, i);
        FreedStep(old(hdrs), chain, i);
        assert chain[i..][0] == member && chain[i..][1..] == chain[i + 1..];
        var next, size := hdrs[member].next, hdrs[member].size;
        events := events + [Gave(member, size, alloc)];
        hdrs := hdrs[member := hdrs[member].(state := Free, group := NIL, next := NIL, parent := NIL)];
        member := next;
        i := i + 1;
      }
      assert chain[..|chain|] == chain;
    }
  }
}

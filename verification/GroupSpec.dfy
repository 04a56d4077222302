/** Parent groups as lists. An object allocated with a parent joins the group of the parent's root;
    the blocks of a group are held until its last live member dies, then all are freed at once.

    Here a group is the list of its members, newest first. `GroupRuntime` refines this to the header
    fields the runtime keeps. */
module GroupSpec {

  import opened Wrappers

  type Addr = nat

  const NIL: Addr := 0

  datatype State = Free | Live | Disposed

  /** `root` is nil for an object outside any group. */
  datatype Obj = Obj(state: State, size: nat, alloc: nat, parent: Addr, root: Addr)

  /** Calls made to the allocators, in order. */
  datatype Event = Got(a: Addr, size: nat, alloc: nat) | Gave(a: Addr, size: nat, alloc: nat)

  datatype Groups = Groups(objs: seq<Obj>, members: map<Addr, seq<Addr>>, events: seq<Event>)

  /** Where a child allocation can stop. */
  datatype Outcome = NoGroupState | NoMemory | NotLinked | Linked

  datatype Op =
    | Alloc(a: Addr, size: nat, alloc: nat)
    | AllocChild(p: Addr, a: Addr, size: nat, outcome: Outcome)
    | Dispose(x: Addr)

  predicate IsLive(g: Groups, x: Addr) {
    x < |g.objs| && g.objs[x].state.Live?
  }

  function RootOf(g: Groups, x: Addr): Addr
    requires x < |g.objs|
  {
    if g.objs[x].root == NIL then x else g.objs[x].root
  }

  /** Makes the root of `p`'s group exist; an object outside any group becomes a group of one. */
  function WithGroup(g: Groups, p: Addr): (r: Groups)
    requires p < |g.objs|
    ensures |r.objs| == |g.objs| && r.events == g.events
  {
    if g.objs[p].root != NIL then g
    else g.(objs := g.objs[p := g.objs[p].(root := p)], members := g.members[p := [p]])
  }

  function StepAllocChild(g: Groups, p: Addr, a: Addr, size: nat, outcome: Outcome): Groups
    requires a < |g.objs|
    requires (IsLive(g, p) ==> RootOf(g, p) < |g.objs| && (g.objs[p].root != NIL ==> g.objs[p].root in g.members))
  {
    if !IsLive(g, p) || outcome.NoGroupState? then g
    else
      var g1 := WithGroup(g, p);
      var root := g1.objs[p].root;
      var alloc := g1.objs[root].alloc;
      if outcome.NoMemory? then g1
      else if outcome.NotLinked? then g1.(events := g1.events + [Got(a, size, alloc), Gave(a, size, alloc)])
      else
        g1.(objs := g1.objs[a := Obj(Live, size, alloc, p, root)],
            members := g1.members[root := [a] + g1.members[root]],
            events := g1.events + [Got(a, size, alloc)])
  }

  predicate AnyLive(objs: seq<Obj>, chain: seq<Addr>) {
    exists i :: 0 <= i < |chain| && chain[i] < |objs| && objs[chain[i]].state.Live?
  }

  /** Frees the members of a chain in order, each with its own size, through one allocator. */
  function FreeAll(objs: seq<Obj>, chain: seq<Addr>): (r: seq<Obj>)
    ensures |r| == |objs|
    ensures forall x :: 0 <= x < |objs| && x !in chain ==> r[x] == objs[x]
    decreases |chain|
  {
    if chain == [] then objs
    else if chain[0] < |objs| then
      FreeAll(objs[chain[0] := objs[chain[0]].(state := Free, root := NIL)], chain[1..])
    else FreeAll(objs, chain[1..])
  }

  function Frees(objs: seq<Obj>, chain: seq<Addr>, alloc: nat): seq<Event> {
    if chain == [] then []
    else [Gave(chain[0], if chain[0] < |objs| then objs[chain[0]].size else 0, alloc)] + Frees(objs, chain[1..], alloc)
  }

  function StepDispose(g: Groups, x: Addr): Groups
    requires IsLive(g, x) && g.objs[x].root != NIL ==> g.objs[x].root in g.members && g.objs[x].root < |g.objs|
  {
    if !IsLive(g, x) then g
    else
      var o := g.objs[x];
      if o.root == NIL then
        g.(objs := g.objs[x := o.(state := Free)], events := g.events + [Gave(x, o.size, o.alloc)])
      else
        var objs := g.objs[x := o.(state := Disposed)];
        var chain := g.members[o.root];
        if AnyLive(objs, chain) then g.(objs := objs)
        else Groups(FreeAll(objs, chain), g.members - {o.root}, g.events + Frees(objs, chain, objs[o.root].alloc))
  }

  // ---------------------------------------------------------------- the invariant

  /** The members of one group: each held, each listed once, the root last, and one still live. */
  ghost predicate GoodChain(g: Groups, root: Addr)
    requires root in g.members
  {
    var chain := g.members[root];
    && root < |g.objs| && |chain| > 0 && chain[|chain| - 1] == root && NoRepeats(chain)
    && AnyLive(g.objs, chain)
    && forall i :: 0 <= i < |chain| ==>
         && NIL < chain[i] < |g.objs| && !g.objs[chain[i]].state.Free?
         && g.objs[chain[i]].root == root && g.objs[chain[i]].alloc == g.objs[root].alloc
  }

  ghost predicate Placed(g: Groups, x: Addr)
    requires x < |g.objs|
  {
    var o := g.objs[x];
    && (o.state.Free? ==> o.root == NIL)
    && (o.state.Disposed? ==> o.root != NIL)
    && (o.root != NIL ==> o.root in g.members && x in g.members[o.root])
  }

  type Blocks = map<Addr, (nat, nat)>

  function Apply(held: Blocks, e: Event): Blocks {
    if e.Got? then held[e.a := (e.size, e.alloc)] else held - {e.a}
  }

  /** A block is handed out only while free, and given back with the size and to the allocator it
      came from. */
  predicate Fits(held: Blocks, e: Event) {
    if e.Got? then e.a !in held else e.a in held && held[e.a] == (e.size, e.alloc)
  }

  /** What the allocators were asked for and have not been given back. */
  function Held(events: seq<Event>): Blocks {
    if events == [] then map[] else Apply(Held(events[..|events| - 1]), events[|events| - 1])
  }

  /** Every block is given back at most once, correctly, and no address is handed out twice at the
      same time. */
  predicate Balanced(events: seq<Event>) {
    events == [] ||
    (Balanced(events[..|events| - 1]) && Fits(Held(events[..|events| - 1]), events[|events| - 1]))
  }

  ghost predicate HoldsBlocks(objs: seq<Obj>, held: Blocks) {
    && (forall a :: a in held ==> a < |objs| && !objs[a].state.Free? && held[a] == (objs[a].size, objs[a].alloc))
    && (forall x :: 0 <= x < |objs| && !objs[x].state.Free? ==> x in held)
  }

  ghost predicate ChainsOk(g: Groups) {
    forall r :: r in g.members ==> GoodChain(g, r)
  }

  ghost predicate PlacesOk(g: Groups) {
    forall x :: 0 <= x < |g.objs| ==> Placed(g, x)
  }

  ghost predicate BlocksOk(objs: seq<Obj>, events: seq<Event>) {
    Balanced(events) && HoldsBlocks(objs, Held(events))
  }

  ghost predicate Inv(g: Groups) {
    |g.objs| > 0 && g.objs[NIL].state.Free? && ChainsOk(g) && PlacesOk(g) && BlocksOk(g.objs, g.events)
  }

  ghost predicate Legal(g: Groups, op: Op) {
    match op
    case Alloc(a, _, _) => NIL < a < |g.objs| && g.objs[a].state.Free?
    case AllocChild(p, a, _, _) => NIL < a < |g.objs| && g.objs[a].state.Free?
    case Dispose(x) => true
  }

  ghost function Step(g: Groups, op: Op): Groups
    requires Inv(g) && Legal(g, op)
  {
    match op
    case Alloc(a, size, alloc) =>
      g.(objs := g.objs[a := Obj(Live, size, alloc, NIL, NIL)], events := g.events + [Got(a, size, alloc)])
    case AllocChild(p, a, size, outcome) =>
      assert IsLive(g, p) ==> Placed(g, p);
      StepAllocChild(g, p, a, size, outcome)
    case Dispose(x) =>
      assert IsLive(g, x) ==> Placed(g, x);
      StepDispose(g, x)
  }

  // ---------------------------------------------------------------- every step keeps it

  lemma {:induction false} Appended(events: seq<Event>, e: Event)
    ensures Held(events + [e]) == Apply(Held(events), e)
    ensures Balanced(events + [e]) <==> Balanced(events) && Fits(Held(events), e)
  {
    assert (events + [e])[..|events|] == events;
  }

  /** A chain whose members were neither freed nor moved, and lost no live member, is still good. */
  lemma ChainKept(g: Groups, g1: Groups, r: Addr)
    requires r in g.members && r in g1.members && g1.members[r] == g.members[r] && GoodChain(g, r)
    requires |g1.objs| == |g.objs|
    requires forall i :: 0 <= i < |g.members[r]| ==> g1.objs[g.members[r][i]] == g.objs[g.members[r][i]]
    ensures GoodChain(g1, r)
  {
    var chain := g.members[r];
    assert chain[|chain| - 1] == r;
    var i :| 0 <= i < |chain| && chain[i] < |g.objs| && g.objs[chain[i]].state.Live?;
    assert g1.objs[chain[i]].state.Live?;
  }

  /** A free block is in no chain, and neither is an object outside any group. */
  lemma Unchained(g: Groups, a: Addr)
    requires ChainsOk(g) && a < |g.objs| && g.objs[a].root == NIL && NIL !in g.members
    ensures forall r :: r in g.members ==> r != a && a !in g.members[r]
  {
    forall r | r in g.members ensures r != a && a !in g.members[r] {
      assert GoodChain(g, r);
      assert g.members[r][|g.members[r]| - 1] == r;
    }
  }

  lemma NilIsFree(g: Groups)
    requires Inv(g)
    ensures NIL !in g.members
  {
    assert NIL in g.members ==> GoodChain(g, NIL);
  }

  lemma AllocKeeps(g: Groups, a: Addr, size: nat, alloc: nat)
    requires Inv(g) && Legal(g, Alloc(a, size, alloc))
    ensures Inv(Step(g, Alloc(a, size, alloc)))
  {
    var g1 := Step(g, Alloc(a, size, alloc));
    assert Placed(g, a);
    NilIsFree(g);
    Unchained(g, a);
    assert ChainsOk(g1) by {
      forall r | r in g1.members ensures GoodChain(g1, r) { ChainKept(g, g1, r); }
    }
    assert PlacesOk(g1) by {
      forall x | 0 <= x < |g1.objs| ensures Placed(g1, x) { assert Placed(g, x); }
    }
    GotKeeps(g.objs, g.events, a, g1.objs[a]);
  }

  lemma GotKeeps(objs: seq<Obj>, events: seq<Event>, a: Addr, o: Obj)
    requires BlocksOk(objs, events) && a < |objs| && objs[a].state.Free? && !o.state.Free?
    ensures BlocksOk(objs[a := o], events + [Got(a, o.size, o.alloc)])
  {
    Appended(events, Got(a, o.size, o.alloc));
  }

  lemma GaveKeeps(objs: seq<Obj>, events: seq<Event>, a: Addr, o: Obj)
    requires BlocksOk(objs, events) && a < |objs| && !objs[a].state.Free? && o.state.Free?
    ensures BlocksOk(objs[a := o], events + [Gave(a, objs[a].size, objs[a].alloc)])
  {
    Appended(events, Gave(a, objs[a].size, objs[a].alloc));
  }

  lemma WithGroupKeeps(g: Groups, p: Addr)
    requires Inv(g) && IsLive(g, p)
    ensures Inv(WithGroup(g, p)) && WithGroup(g, p).objs[p].root in WithGroup(g, p).members
  {
    hide Balanced;
    assert Placed(g, p);
    if g.objs[p].root == NIL {
      var g1 := WithGroup(g, p);
      NilIsFree(g);
      Unchained(g, p);
      assert ChainsOk(g1) by {
        forall r | r in g1.members ensures GoodChain(g1, r) {
          if r == p {
            assert g1.members[r][0] == p;
          } else {
            ChainKept(g, g1, r);
          }
        }
      }
      assert PlacesOk(g1) by {
        forall x | 0 <= x < |g1.objs| ensures Placed(g1, x) { assert Placed(g, x); }
      }
      assert HoldsBlocks(g1.objs, Held(g1.events));
    }
  }

  lemma AllocChildKeeps(g: Groups, p: Addr, a: Addr, size: nat, outcome: Outcome)
    requires Inv(g) && Legal(g, AllocChild(p, a, size, outcome))
    ensures Inv(Step(g, AllocChild(p, a, size, outcome)))
  {
    if IsLive(g, p) && !outcome.NoGroupState? {
      var g1 := WithGroup(g, p);
      WithGroupKeeps(g, p);
      if outcome.NotLinked? {
        GiveBackKeeps(g1, a, size, g1.objs[g1.objs[p].root].alloc);
      } else if outcome.Linked? {
        LinkKeeps(g1, p, a, size);
      }
    }
  }

  /** The root of a group a held object belongs to is held itself. */
  lemma RootIsHeld(g: Groups, p: Addr)
    requires ChainsOk(g) && PlacesOk(g) && p < |g.objs| && g.objs[p].root != NIL
    ensures var root := g.objs[p].root;
            && root in g.members && GoodChain(g, root) && p in g.members[root] && root in g.members[root]
            && root < |g.objs| && !g.objs[root].state.Free? && g.objs[root].root == root
  {
    assert Placed(g, p);
    var chain := g.members[g.objs[p].root];
    assert GoodChain(g, g.objs[p].root);
    assert chain[|chain| - 1] == g.objs[p].root;
  }

  lemma LinkedIs(g: Groups, p: Addr, a: Addr, size: nat)
    requires Inv(g) && IsLive(g, p) && g.objs[p].root != NIL && NIL < a < |g.objs| && g.objs[a].state.Free?
    ensures var root := g.objs[p].root;
            && root < |g.objs| && root != a && root in g.members && g.objs[a].root == NIL
            && Step(g, AllocChild(p, a, size, Linked)) ==
               Groups(g.objs[a := Obj(Live, size, g.objs[root].alloc, p, root)],
                      g.members[root := [a] + g.members[root]],
                      g.events + [Got(a, size, g.objs[root].alloc)])
  {
    RootIsHeld(g, p);
    assert Placed(g, a);
  }

  lemma LinkKeeps(g: Groups, p: Addr, a: Addr, size: nat)
    requires Inv(g) && IsLive(g, p) && g.objs[p].root != NIL && NIL < a < |g.objs| && g.objs[a].state.Free?
    ensures Inv(Step(g, AllocChild(p, a, size, Linked)))
  {
    hide GoodChain, Placed, BlocksOk;
    var root := g.objs[p].root;
    LinkedIs(g, p, a, size);
    RootIsHeld(g, p);
    NilIsFree(g);
    Unchained(g, a);
    var o := Obj(Live, size, g.objs[root].alloc, p, root);
    LinkKeepsChains(g, root, a, o, g.events + [Got(a, o.size, o.alloc)]);
    GotKeeps(g.objs, g.events, a, o);
  }

  lemma LinkKeepsChains(g: Groups, root: Addr, a: Addr, o: Obj, events: seq<Event>)
    requires ChainsOk(g) && PlacesOk(g) && root in g.members && NIL < a < |g.objs| && root < |g.objs|
    requires forall r :: r in g.members ==> r != a && a !in g.members[r]
    requires o.state.Live? && o.root == root && o.alloc == g.objs[root].alloc
    ensures var g1 := Groups(g.objs[a := o], g.members[root := [a] + g.members[root]], events);
            ChainsOk(g1) && PlacesOk(g1)
  {
    var g1 := Groups(g.objs[a := o], g.members[root := [a] + g.members[root]], events);
    assert ChainsOk(g1) by {
      forall r | r in g1.members ensures GoodChain(g1, r) {
        assert GoodChain(g, r);
        if r == root { PushKeepsChain(g, g1, root, a); } else { ChainKept(g, g1, r); }
      }
    }
    assert PlacesOk(g1) by {
      hide GoodChain;
      forall x | 0 <= x < |g1.objs| ensures Placed(g1, x) {
        assert Placed(g, x);
        assert x in g.members[root] ==> x in [a] + g.members[root];
      }
    }
  }

  lemma PushKeepsChain(g: Groups, g1: Groups, root: Addr, a: Addr)
    requires root in g.members && GoodChain(g, root) && NIL < a < |g.objs| && a !in g.members[root] && root != a
    requires root in g1.members && g1.members[root] == [a] + g.members[root]
    requires |g1.objs| == |g.objs| && g1.objs == g.objs[a := g1.objs[a]]
    requires g1.objs[a].state.Live? && g1.objs[a].root == root && g1.objs[a].alloc == g.objs[root].alloc
    ensures GoodChain(g1, root)
  {
    var chain, chain1 := g.members[root], g1.members[root];
    assert chain1[0] == a;
    forall i | 0 <= i < |chain1|
      ensures NIL < chain1[i] < |g1.objs| && !g1.objs[chain1[i]].state.Free?
              && g1.objs[chain1[i]].root == root && g1.objs[chain1[i]].alloc == g1.objs[root].alloc
    {
      if i > 0 { assert chain1[i] == chain[i - 1]; }
    }
    forall i, j | 0 <= i < j < |chain1| ensures chain1[i] != chain1[j] {
      assert chain1[j] == chain[j - 1];
    }
  }

  /** A block given straight back leaves the same blocks held. */
  lemma GiveBackKeeps(g: Groups, a: Addr, size: nat, alloc: nat)
    requires Inv(g) && a < |g.objs| && g.objs[a].state.Free?
    ensures Inv(g.(events := g.events + [Got(a, size, alloc), Gave(a, size, alloc)]))
  {
    hide AnyLive;
    var got := g.events + [Got(a, size, alloc)];
    var g1 := g.(events := g.events + [Got(a, size, alloc), Gave(a, size, alloc)]);
    Appended(g.events, Got(a, size, alloc));
    Appended(got, Gave(a, size, alloc));
    assert g1.events == got + [Gave(a, size, alloc)];
    assert Held(g1.events) == Held(g.events);
    assert ChainsOk(g1) by {
      forall r | r in g1.members ensures GoodChain(g1, r) { assert GoodChain(g, r); }
    }
    assert PlacesOk(g1) by {
      forall x | 0 <= x < |g1.objs| ensures Placed(g1, x) { assert Placed(g, x); }
    }
  }

  lemma {:induction false} FreeAllKeeps(objs: seq<Obj>, chain: seq<Addr>, alloc: nat, events: seq<Event>)
    requires NoRepeats(chain) && BlocksOk(objs, events)
    requires forall i :: 0 <= i < |chain| ==>
             chain[i] < |objs| && !objs[chain[i]].state.Free? && objs[chain[i]].alloc == alloc
    ensures BlocksOk(FreeAll(objs, chain), events + Frees(objs, chain, alloc))
    decreases |chain|
  {
    if chain == [] {
      assert events + [] == events;
    } else {
      var x, rest := chain[0], chain[1..];
      var objs1 := objs[x := objs[x].(state := Free, root := NIL)];
      var e := Gave(x, objs[x].size, alloc);
      assert forall i :: 0 <= i < |rest| ==> rest[i] == chain[i + 1];
      assert BlocksOk(objs1, events + [e]) by { GaveKeeps(objs, events, x, objs1[x]); }
      FreeAllKeeps(objs1, rest, alloc, events + [e]);
      FreesIgnore(objs, rest, alloc, x);
      Associative(events, [e], Frees(objs, rest, alloc));
    }
  }

  lemma Associative(a: seq<Event>, b: seq<Event>, c: seq<Event>)
    ensures a + (b + c) == (a + b) + c
  {
  }

  lemma {:induction false} FreesIgnore(objs: seq<Obj>, chain: seq<Addr>, alloc: nat, x: Addr)
    requires x < |objs|
    ensures Frees(objs[x := objs[x].(state := Free, root := NIL)], chain, alloc) == Frees(objs, chain, alloc)
    decreases |chain|
  {
    if chain != [] {
      FreesIgnore(objs, chain[1..], alloc, x);
    }
  }

  lemma {:induction false} FreesIgnoreState(objs: seq<Obj>, chain: seq<Addr>, alloc: nat, x: Addr)
    requires x < |objs|
    ensures Frees(objs[x := objs[x].(state := Disposed)], chain, alloc) == Frees(objs, chain, alloc)
    decreases |chain|
  {
    if chain != [] {
      FreesIgnoreState(objs, chain[1..], alloc, x);
    }
  }

  lemma DisposeKeeps(g: Groups, x: Addr)
    requires Inv(g)
    ensures Inv(Step(g, Dispose(x)))
  {
    if IsLive(g, x) {
      assert Placed(g, x);
      if g.objs[x].root == NIL {
        DisposeLoneKeeps(g, x);
      } else if AnyLive(g.objs[x := g.objs[x].(state := Disposed)], g.members[g.objs[x].root]) {
        DisposeMemberKeeps(g, x);
      } else {
        DisposeLastKeeps(g, x);
      }
    }
  }

  lemma DisposeLoneKeeps(g: Groups, x: Addr)
    requires Inv(g) && IsLive(g, x) && g.objs[x].root == NIL
    ensures Inv(Step(g, Dispose(x)))
  {
    var g1 := Step(g, Dispose(x));
    NilIsFree(g);
    Unchained(g, x);
    assert ChainsOk(g1) by {
      forall r | r in g1.members ensures GoodChain(g1, r) { ChainKept(g, g1, r); }
    }
    assert PlacesOk(g1) by {
      forall y | 0 <= y < |g1.objs| ensures Placed(g1, y) { assert Placed(g, y); }
    }
    GaveKeeps(g.objs, g.events, x, g1.objs[x]);
  }

  /** A live object belongs to no chain but its own. */
  lemma NotInOther(g: Groups, x: Addr)
    requires ChainsOk(g) && IsLive(g, x)
    ensures forall r :: r in g.members && r != g.objs[x].root ==> x !in g.members[r] && r != x
  {
    forall r | r in g.members && r != g.objs[x].root ensures x !in g.members[r] && r != x {
      assert GoodChain(g, r);
      assert g.members[r][|g.members[r]| - 1] == r;
    }
  }

  lemma DisposeMemberKeeps(g: Groups, x: Addr)
    requires Inv(g) && IsLive(g, x) && g.objs[x].root != NIL && g.objs[x].root in g.members
    requires AnyLive(g.objs[x := g.objs[x].(state := Disposed)], g.members[g.objs[x].root])
    ensures Inv(g.(objs := g.objs[x := g.objs[x].(state := Disposed)]))
  {
    var g1 := g.(objs := g.objs[x := g.objs[x].(state := Disposed)]);
    NotInOther(g, x);
    assert ChainsOk(g1) by {
      forall r | r in g1.members ensures GoodChain(g1, r) {
        if r == g.objs[x].root { MarkKeepsChain(g, x, r); } else { ChainKept(g, g1, r); }
      }
    }
    assert PlacesOk(g1) by {
      forall y | 0 <= y < |g1.objs| ensures Placed(g1, y) { assert Placed(g, y); }
    }
    assert HoldsBlocks(g1.objs, Held(g1.events));
  }

  lemma MarkKeepsChain(g: Groups, x: Addr, r: Addr)
    requires IsLive(g, x) && r in g.members && GoodChain(g, r)
    requires AnyLive(g.objs[x := g.objs[x].(state := Disposed)], g.members[r])
    ensures GoodChain(g.(objs := g.objs[x := g.objs[x].(state := Disposed)]), r)
  {
    var g1 := g.(objs := g.objs[x := g.objs[x].(state := Disposed)]);
    var chain := g.members[r];
    forall i | 0 <= i < |chain|
      ensures NIL < chain[i] < |g1.objs| && !g1.objs[chain[i]].state.Free?
              && g1.objs[chain[i]].root == r && g1.objs[chain[i]].alloc == g1.objs[r].alloc
    {
    }
  }

  lemma DisposeLastKeeps(g: Groups, x: Addr)
    requires Inv(g) && IsLive(g, x) && g.objs[x].root != NIL && g.objs[x].root in g.members
    requires !AnyLive(g.objs[x := g.objs[x].(state := Disposed)], g.members[g.objs[x].root])
    ensures Inv(Step(g, Dispose(x)))
  {
    hide GoodChain, Placed, HoldsBlocks, FreeAll, Frees;
    var root := g.objs[x].root;
    var g1 := Step(g, Dispose(x));
    LastDeathIs(g, x);
    LastDeathKeepsBlocks(g, x);
    assert ChainsOk(g1) by {
      forall r | r in g1.members ensures GoodChain(g1, r) { OtherChainKept(g, g1, r, root); }
    }
    assert PlacesOk(g1) by {
      forall y | 0 <= y < |g1.objs| ensures Placed(g1, y) { OtherPlaceKept(g, g1, y, root); }
    }
  }

  /** The last death in one equation: the group is gone, its members are free, nothing else moved. */
  lemma LastDeathIs(g: Groups, x: Addr)
    requires Inv(g) && IsLive(g, x) && g.objs[x].root != NIL && g.objs[x].root in g.members
    requires !AnyLive(g.objs[x := g.objs[x].(state := Disposed)], g.members[g.objs[x].root])
    ensures var g1, root := Step(g, Dispose(x)), g.objs[x].root;
            && root in g.members && root < |g.objs|
            && g1.members == g.members - {root} && |g1.objs| == |g.objs| && g1.objs[NIL] == g.objs[NIL]
            && g1.events == g.events + Frees(g.objs, g.members[root], g.objs[root].alloc)
            && forall y :: 0 <= y < |g.objs| ==>
                 if y in g.members[root] then g1.objs[y] == g.objs[y].(state := Free, root := NIL)
                   else g1.objs[y] == g.objs[y]
  {
    hide ChainsOk, PlacesOk, BlocksOk, AnyLive, FreeAll, Frees;
    var root := g.objs[x].root;
    RootIsHeld(g, x);
    ChainFacts(g, root);
    var objs, chain := g.objs[x := g.objs[x].(state := Disposed)], g.members[root];
    FreeAllIs(objs, chain, objs[root].alloc);
    FreesIgnoreState(g.objs, chain, objs[root].alloc, x);
  }

  lemma ChainFacts(g: Groups, root: Addr)
    requires ChainsOk(g) && root in g.members
    ensures var chain := g.members[root];
            NoRepeats(chain) && NIL !in chain && forall i :: 0 <= i < |chain| ==> chain[i] < |g.objs|
  {
    assert GoodChain(g, root);
  }

  lemma LastDeathKeepsBlocks(g: Groups, x: Addr)
    requires Inv(g) && IsLive(g, x) && g.objs[x].root != NIL && g.objs[x].root in g.members
    requires !AnyLive(g.objs[x := g.objs[x].(state := Disposed)], g.members[g.objs[x].root])
    ensures BlocksOk(Step(g, Dispose(x)).objs, Step(g, Dispose(x)).events)
  {
    var root := g.objs[x].root;
    var objs := g.objs[x := g.objs[x].(state := Disposed)];
    RootIsHeld(g, x);
    assert BlocksOk(objs, g.events) by { assert HoldsBlocks(objs, Held(g.events)); }
    FreeAllKeeps(objs, g.members[root], objs[root].alloc, g.events);
  }

  lemma OtherChainKept(g: Groups, g1: Groups, r: Addr, root: Addr)
    requires ChainsOk(g) && root in g.members && r in g.members && r != root && r in g1.members
    requires g1.members[r] == g.members[r]
    requires |g1.objs| == |g.objs| && forall y :: 0 <= y < |g.objs| && y !in g.members[root] ==> g1.objs[y] == g.objs[y]
    ensures GoodChain(g1, r)
  {
    assert GoodChain(g, r) && GoodChain(g, root);
    forall i | 0 <= i < |g.members[r]| ensures g.members[r][i] !in g.members[root] {}
    ChainKept(g, g1, r);
  }

  lemma OtherPlaceKept(g: Groups, g1: Groups, y: Addr, root: Addr)
    requires ChainsOk(g) && PlacesOk(g) && root in g.members && g1.members == g.members - {root}
             && y < |g1.objs| == |g.objs|
    requires if y in g.members[root] then g1.objs[y].state.Free? && g1.objs[y].root == NIL else g1.objs[y] == g.objs[y]
    ensures Placed(g1, y)
  {
    assert Placed(g, y);
  }

  /** The freeing loop frees the chain's blocks, each once, and nothing else. */
  lemma {:induction false} FreeAllIs(objs: seq<Obj>, chain: seq<Addr>, alloc: nat)
    requires NoRepeats(chain) && forall i :: 0 <= i < |chain| ==> chain[i] < |objs|
    ensures forall y :: 0 <= y < |objs| ==>
              FreeAll(objs, chain)[y] == if y in chain then objs[y].(state := Free, root := NIL) else objs[y]
    ensures |Frees(objs, chain, alloc)| == |chain|
    ensures forall i :: 0 <= i < |chain| ==> Frees(objs, chain, alloc)[i] == Gave(chain[i], objs[chain[i]].size, alloc)
    decreases |chain|
  {
    if chain != [] {
      var x, rest := chain[0], chain[1..];
      assert forall i :: 0 <= i < |rest| ==> rest[i] == chain[i + 1];
      FreeAllIs(objs[x := objs[x].(state := Free, root := NIL)], rest, alloc);
      FreesIgnore(objs, rest, alloc, x);
      assert forall y :: y in chain <==> y == x || y in rest;
    }
  }

  // ---------------------------------------------------------------- runs

  lemma StepKeeps(g: Groups, op: Op)
    requires Inv(g) && Legal(g, op)
    ensures Inv(Step(g, op))
  {
    match op
    case Alloc(a, size, alloc) => AllocKeeps(g, a, size, alloc);
    case AllocChild(p, a, size, outcome) => AllocChildKeeps(g, p, a, size, outcome);
    case Dispose(x) => DisposeKeeps(g, x);
  }

  ghost function Run(g: Groups, ops: seq<Op>): Groups
    requires Inv(g)
    decreases |ops|
  {
    if ops == [] || !Legal(g, ops[0]) then g
    else
      StepKeeps(g, ops[0]);
      Run(Step(g, ops[0]), ops[1..])
  }

  /** No block has been asked for yet. */
  function Start(n: nat): (g: Groups)
    ensures n > 0 ==> Inv(g)
  {
    Groups(seq(n, _ => Obj(Free, 0, 0, NIL, NIL)), map[], [])
  }

  /** After any run: every block is given back at most once, with its own size and to the allocator it
      came from; what has not been given back is exactly what is still held; and a held block is live,
      or a member of a group with a live member. */
  lemma {:induction false} EveryRun(g: Groups, ops: seq<Op>)
    requires Inv(g)
    ensures var r := Run(g, ops);
            && Inv(r)
            && Balanced(r.events)
            && (forall x :: 0 <= x < |r.objs| ==> (x in Held(r.events) <==> !r.objs[x].state.Free?))
            && (forall x :: 0 <= x < |r.objs| && r.objs[x].state.Disposed? ==>
                  r.objs[x].root in r.members && AnyLive(r.objs, r.members[r.objs[x].root])
                    && x in r.members[r.objs[x].root])
    decreases |ops|
  {
    if ops != [] && Legal(g, ops[0]) {
      StepKeeps(g, ops[0]);
      EveryRun(Step(g, ops[0]), ops[1..]);
    } else {
      forall x | 0 <= x < |g.objs| && g.objs[x].state.Disposed?
        ensures g.objs[x].root in g.members && AnyLive(g.objs, g.members[g.objs[x].root])
        ensures x in g.members[g.objs[x].root]
      {
        assert Placed(g, x);
        assert GoodChain(g, g.objs[x].root);
      }
    }
  }

  /** The last death of a group frees all of it and nothing else, each member once, in chain order. */
  lemma LastDeathFreesTheGroup(g: Groups, x: Addr)
    requires Inv(g) && IsLive(g, x) && g.objs[x].root != NIL
    requires forall y :: 0 <= y < |g.objs| && y != x && g.objs[y].root == g.objs[x].root ==> !g.objs[y].state.Live?
    ensures var r, root := Step(g, Dispose(x)), g.objs[x].root;
            && root in g.members
            && var chain := g.members[root];
            && (forall y :: 0 <= y < |g.objs| ==> (y in chain <==> g.objs[y].root == root))
            && (forall y :: 0 <= y < |g.objs| ==>
              r.objs[y] == if y in chain then g.objs[y].(state := Free, root := NIL) else g.objs[y])
            && |r.events| == |g.events| + |chain| && r.events[..|g.events|] == g.events
            && (forall i :: 0 <= i < |chain| ==>
                  chain[i] < |g.objs| && r.events[|g.events| + i] == Gave(chain[i], g.objs[chain[i]].size,
                    g.objs[chain[i]].alloc))
  {
    var root := g.objs[x].root;
    RootIsHeld(g, x);
    var chain := g.members[root];
    forall y | 0 <= y < |g.objs| ensures y in chain <==> g.objs[y].root == root {
      assert Placed(g, y);
    }
    assert !AnyLive(g.objs[x := g.objs[x].(state := Disposed)], chain);
    LastDeathIs(g, x);
    FreeAllIs(g.objs, chain, g.objs[root].alloc);
  }

  /** While another member lives, a death frees nothing and moves nothing. */
  lemma EarlierDeathHoldsTheGroup(g: Groups, x: Addr, y: Addr)
    requires Inv(g) && IsLive(g, x) && IsLive(g, y) && x != y && g.objs[x].root == g.objs[y].root != NIL
    ensures Step(g, Dispose(x)) == g.(objs := g.objs[x := g.objs[x].(state := Disposed)])
  {
    assert Placed(g, x) && Placed(g, y);
    var objs, chain := g.objs[x := g.objs[x].(state := Disposed)], g.members[g.objs[x].root];
    var i :| 0 <= i < |chain| && chain[i] == y;
    assert objs[chain[i]].state.Live?;
  }
}

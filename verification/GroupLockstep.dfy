/** The three header layouts side by side with the list runtime: after any legal run of group operations
    they give the same answers, those of the linked headers in `GroupRuntime`. */
module GroupLockstep {

  import opened Wrappers
  import opened GroupView
  import Spec = GroupSpec
  import Heap = GroupRuntime
  import DefaultHeaders
  import CompactHeaders
  import InlineHeaders

  // ---------------------------------------------------------------- operations on the answers

  /** Allocation outside a group, allocation with a live parent, and death of a live object with the
      chain of its group, as the callers of the setters perform them. */
  datatype Op = Alloc(x: Addr) | Child(x: Addr, p: Addr, outcome: Spec.Outcome) | Death(x: Addr, chain: seq<Addr>)

  /** From `head` on, the links visit `chain` and end. */
  ghost predicate Walk(v: Views, head: Addr, chain: seq<Addr>) {
    && NoRepeats(chain)
    && head == (if chain == [] then NIL else chain[0])
    && forall i :: 0 <= i < |chain| ==> WalkAt(v, chain, i)
  }

  ghost predicate WalkAt(v: Views, chain: seq<Addr>, i: nat)
    requires i < |chain|
  {
    && NIL < chain[i] < |v| && !IsRoot(v, chain[i])
    && v[chain[i]].next == if i + 1 < |chain| then chain[i + 1] else NIL
  }

  /** What the setters need of a state for an operation; `Ready` shows that the runs provide it. */
  ghost predicate Needs(v: Views, op: Op) {
    match op
    case Alloc(x) => 0 < x < |v| && !IsRoot(v, x)
    case Child(x, p, outcome) =>
      && 0 < x < |v| && 0 < p < |v| && x != p && v[x] == Blank(false) && v[p].live
      && (v[p].root == NIL ==> v[p].parent == NIL)
      && (outcome.Linked? && v[p].root != NIL ==> v[p].root < |v| && v[v[p].root].count + 1 < UINT32)
    case Death(x, chain) =>
      && 0 < x < |v| && v[x].live
      && (v[x].root != NIL && v[x].root < |v| && v[v[x].root].count == 1 ==>
            var r := v[x].root;
            && AllDead(Kill(v, x), r) && r in chain
            && Walk(Reset(SetCount(Kill(v, x), r, 0), r), v[r].head, chain))
  }

  function Blank(live: bool): View {
    View(live, NIL, NIL, NIL, NIL, 0)
  }

  /** Every member of a chain reset. */
  ghost function Resets(v: Views, chain: seq<Addr>): (r: Views)
    ensures |r| == |v|
  {
    seq(|v|, y requires 0 <= y < |v| => if y in chain then Blank(v[y].live) else v[y])
  }

  ghost function Step(v: Views, op: Op): Views
    requires Good(v) && Needs(v, op)
  {
    match op
    case Alloc(x) => GroupView.Fresh(v, x)
    case Child(x, p, outcome) =>
      if outcome.NoGroupState? then v
      else
        var v1 := Init(v, Root(v, p));
        if outcome.Linked? then Link(GroupView.Fresh(v1, x), x, p, Root(v, p)) else v1
    case Death(x, chain) =>
      var v1 := Kill(v, x);
      if v[x].root == NIL then v1
      else
        var r := v[x].root;
        var v2 := SetCount(v1, r, v1[r].count - 1);
        if v2[r].count == 0 then Resets(Reset(v2, r), chain) else v2
  }

  /** The root a live object belongs to, or will after its group is made. */
  lemma RootFacts(v: Views, p: Addr)
    requires Good(v) && 0 < p < |v| && v[p].live
    ensures 0 < Root(v, p) < |v| && Root(v, Root(v, p)) == Root(v, p)
    ensures v[p].root != NIL ==> IsRoot(v, v[p].root) && 0 < v[v[p].root].count < UINT32 && v[v[p].root].head != NIL
  {
  }

  /** `x` is a free block that may join the group of the root `r` under the parent `p`. */
  ghost predicate Joins(v: Views, x: Addr, p: Addr, r: Addr) {
    0 < x < |v| && x != r && p != NIL && v[x] == Blank(false) && IsRoot(v, r) && 0 < v[r].count && v[r].head != NIL
  }

  /** The count of the group can take one more. */
  ghost predicate HasRoom(v: Views, r: Addr) {
    r < |v| && v[r].count + 1 < UINT32
  }

  lemma InitFacts(v: Views, p: Addr)
    requires Good(v) && 0 < p < |v| && v[p].live
    ensures var r := Root(v, p);
            && r < |v| && var w := Init(v, r);
            && IsRoot(w, r) && 0 < w[r].count && w[r].head != NIL && Root(w, p) == r
            && (v[p].root != NIL && v[p].root < |v| ==> w[r].count == v[v[p].root].count)
            && (v[p].root == NIL ==> w[r].count == 1)
    ensures forall y :: 0 <= y < |v| && y != Root(v, p) ==> Init(v, Root(v, p))[y] == v[y]
  {
  }

  lemma ResetsStep(v: Views, chain: seq<Addr>, i: nat)
    requires i < |chain| && chain[i] < |v|
    ensures Resets(v, chain[..i + 1]) == Reset(Resets(v, chain[..i]), chain[i])
  {
    assert chain[..i + 1] == chain[..i] + [chain[i]];
    assert forall y :: 0 <= y < |v| ==> (y in chain[..i + 1] <==> y in chain[..i] || y == chain[i]);
  }

  /** The walk reaches member `i` as it was. */
  lemma StillThere(v: Views, head: Addr, chain: seq<Addr>, i: nat)
    requires Walk(v, head, chain) && i < |chain|
    ensures var w := Resets(v, chain[..i]);
            && NIL < chain[i] < |w| == |v| && !IsRoot(w, chain[i])
            && w[chain[i]].next == (if i + 1 < |chain| then chain[i + 1] else NIL)
            && Resets(v, chain[..i + 1]) == Reset(w, chain[i])
  {
    assert WalkAt(v, chain, i);
    ResetsStep(v, chain, i);
  }

  lemma WalkStart(v: Views, head: Addr, chain: seq<Addr>)
    requires Walk(v, head, chain)
    ensures Resets(v, chain[..0]) == v && head == if 0 < |chain| then chain[0] else NIL
    ensures chain[..|chain|] == chain && forall i :: 0 <= i < |chain| ==> chain[i] != NIL
  {
    forall i | 0 <= i < |chain| ensures chain[i] != NIL { assert WalkAt(v, chain, i); }
  }

  // ---------------------------------------------------------------- the default layout

  /** free_group_members: each link is read before its header is cleared. */
  method DefaultFree(h: DefaultHeaders.Headers, head: Addr, ghost chain: seq<Addr>)
    requires h.Valid() && Walk(h.Abs(), head, chain)
    modifies h
    ensures h.Valid() && h.Abs() == Resets(old(h.Abs()), chain)
  {
    hide Good, Walk, Resets, Reset, Root;
    ghost var v := h.Abs();
    var member := head;
    ghost var i := 0;
    WalkStart(v, head, chain);
    while member != NIL
      invariant i <= |chain| && h.Valid() && h.Abs() == Resets(v, chain[..i])
      invariant member == if i < |chain| then chain[i] else NIL
      decreases |chain| - i
    {
      StillThere(v, head, chain, i);
      var next := h.GroupNext(member);
      h.DestroyMember(member);
      member := next;
      i := i + 1;
    }
  }

  /** sf_alloc_heap_child_object as far as the headers go: no setter allocates anything. */
  method DefaultChild(h: DefaultHeaders.Headers, x: Addr, p: Addr, blockRoom: bool) returns (outcome: Spec.Outcome)
    requires h.Valid() && Needs(h.Abs(), Child(x, p, if blockRoom then Spec.Linked else Spec.NoMemory))
    modifies h
    ensures outcome.Linked? ==> blockRoom
    ensures h.Valid() && h.Abs() == Step(old(h.Abs()), Child(x, p, outcome))
    ensures outcome == if blockRoom then Spec.Linked else Spec.NoMemory
  {
    hide Good;
    RootFacts(h.Abs(), p);
    ghost var v := h.Abs();
    var r := h.GroupRoot(p);
    var ok := h.InitRoot(r, true);
    if !blockRoom {
      return Spec.NoMemory;
    }
    InitFacts(v, p);
    DefaultLink(h, x, p, r);
    return Spec.Linked;
  }

  method DefaultLink(h: DefaultHeaders.Headers, x: Addr, p: Addr, r: Addr)
    requires h.Valid() && Joins(h.Abs(), x, p, r) && HasRoom(h.Abs(), r)
    modifies h
    ensures h.Valid() && h.Abs() == Link(GroupView.Fresh(old(h.Abs()), x), x, p, r)
  {
    hide Good;
    ghost var v := h.Abs();
    h.Fresh(x);
    var ok := h.SetParent(x, p, true);
    ok := h.SetGroupRoot(x, r);
    var head := h.GroupHead(r);
    ok := h.SetGroupNext(x, head);
    ok := h.SetGroupHead(r, x);
    var count := h.LiveCount(r);
    ok := h.SetLiveCount(r, count + 1);
    assert h.Abs() == Link(GroupView.Fresh(v, x), x, p, r);
  }

  method DefaultDeath(h: DefaultHeaders.Headers, x: Addr, ghost chain: seq<Addr>)
    requires h.Valid() && Needs(h.Abs(), Death(x, chain))
    modifies h
    ensures h.Valid() && h.Abs() == Step(old(h.Abs()), Death(x, chain))
  {
    hide Good, Walk;
    RootFacts(h.Abs(), x);
    var grouped, r := h.Grouped(x), h.GroupRoot(x);
    h.Die(x);
    if grouped {
      var count := h.LiveCount(r);
      var ok := h.SetLiveCount(r, count - 1);
      count := h.LiveCount(r);
      if count == 0 {
        var head := h.TearDown(r);
        DefaultFree(h, head, chain);
      }
    }
  }

  // ---------------------------------------------------------------- the compact layout

  /** free_group_members: each link is read before its header is cleared. */
  method CompactFree(h: CompactHeaders.Headers, head: Addr, ghost chain: seq<Addr>)
    requires h.Valid() && Walk(h.Abs(), head, chain)
    modifies h
    ensures h.Valid() && h.Abs() == Resets(old(h.Abs()), chain)
  {
    hide Good, Walk, Resets, Reset, Root;
    ghost var v := h.Abs();
    var member := head;
    ghost var i := 0;
    WalkStart(v, head, chain);
    while member != NIL
      invariant i <= |chain| && h.Valid() && h.Abs() == Resets(v, chain[..i])
      invariant member == if i < |chain| then chain[i] else NIL
      decreases |chain| - i
    {
      StillThere(v, head, chain, i);
      var next := h.GroupNext(member);
      h.DestroyMember(member);
      member := next;
      i := i + 1;
    }
  }

  /** sf_alloc_heap_child_object as far as the headers go; the flags say which allocations succeed. */
  method CompactChild(h: CompactHeaders.Headers, x: Addr, p: Addr, groupRoom: bool, blockRoom: bool, linkRoom: bool)
      returns (outcome: Spec.Outcome)
    requires h.Valid() && Needs(h.Abs(), Child(x, p, if blockRoom && linkRoom then Spec.Linked else Spec.NoMemory))
    modifies h
    ensures outcome.Linked? ==> blockRoom && linkRoom
    ensures h.Valid() && h.Abs() == Step(old(h.Abs()), Child(x, p, outcome))
    ensures outcome.NoGroupState? <==> !groupRoom && old(h.Abs())[p].root == NIL
    ensures !outcome.NoGroupState? && !blockRoom ==> outcome.NoMemory?
    ensures !outcome.NoGroupState? && blockRoom ==> outcome == if linkRoom then Spec.Linked else Spec.NotLinked
  {
    hide Good;
    RootFacts(h.Abs(), p);
    ghost var v := h.Abs();
    var r := h.GroupRoot(p);
    var ok := h.InitRoot(r, groupRoom, groupRoom);
    if !ok {
      return Spec.NoGroupState;
    }
    if !blockRoom {
      return Spec.NoMemory;
    }
    InitFacts(v, p);
    ok := CompactLink(h, x, p, r, linkRoom);
    return if ok then Spec.Linked else Spec.NotLinked;
  }

  /** The block taken and linked in front of the chain, or given back. */
  method CompactLink(h: CompactHeaders.Headers, x: Addr, p: Addr, r: Addr, room: bool) returns (linked: bool)
    requires h.Valid() && Joins(h.Abs(), x, p, r) && (room ==> HasRoom(h.Abs(), r))
    modifies h
    ensures h.Valid() && linked == room
    ensures h.Abs() == if linked then Link(GroupView.Fresh(old(h.Abs()), x), x, p, r) else old(h.Abs())
  {
    hide Good;
    ghost var v := h.Abs();
    h.Fresh(x);
    linked := h.SetParent(x, p, room);
    if !linked {
      h.Die(x);
      h.DestroyMember(x);
      assert h.Abs() == v;
      return;
    }
    var ok := h.SetGroupRoot(x, r);
    var head := h.GroupHead(r);
    ok := h.SetGroupNext(x, head);
    ok := h.SetGroupHead(r, x);
    var count := h.LiveCount(r);
    ok := h.SetLiveCount(r, count + 1);
    assert h.Abs() == Link(GroupView.Fresh(v, x), x, p, r);
    return true;
  }

  method CompactDeath(h: CompactHeaders.Headers, x: Addr, ghost chain: seq<Addr>)
    requires h.Valid() && Needs(h.Abs(), Death(x, chain))
    modifies h
    ensures h.Valid() && h.Abs() == Step(old(h.Abs()), Death(x, chain))
  {
    hide Good, Walk;
    RootFacts(h.Abs(), x);
    var grouped, r := h.Grouped(x), h.GroupRoot(x);
    h.Die(x);
    if grouped {
      var count := h.LiveCount(r);
      var ok := h.SetLiveCount(r, count - 1);
      count := h.LiveCount(r);
      if count == 0 {
        var head := h.TearDown(r);
        CompactFree(h, head, chain);
      }
    }
  }

  // ---------------------------------------------------------------- the inline layout

  /** free_group_members: each link is read before its header is cleared. */
  method InlineFree(h: InlineHeaders.Headers, head: Addr, ghost chain: seq<Addr>)
    requires h.Valid() && Walk(h.Abs(), head, chain)
    modifies h
    ensures h.Valid() && h.Abs() == Resets(old(h.Abs()), chain)
  {
    hide Good, Walk, Resets, Reset, Root;
    ghost var v := h.Abs();
    var member := head;
    ghost var i := 0;
    WalkStart(v, head, chain);
    while member != NIL
      invariant i <= |chain| && h.Valid() && h.Abs() == Resets(v, chain[..i])
      invariant member == if i < |chain| then chain[i] else NIL
      decreases |chain| - i
    {
      StillThere(v, head, chain, i);
      var next := h.GroupNext(member);
      h.DestroyMember(member);
      member := next;
      i := i + 1;
    }
  }

  /** sf_alloc_heap_child_object as far as the headers go; the flags say which allocations succeed. */
  method InlineChild(h: InlineHeaders.Headers, x: Addr, p: Addr, groupRoom: bool, blockRoom: bool, linkRoom: bool)
      returns (outcome: Spec.Outcome)
    requires h.Valid() && Needs(h.Abs(), Child(x, p, if blockRoom && linkRoom then Spec.Linked else Spec.NoMemory))
    modifies h
    ensures outcome.Linked? ==> blockRoom && linkRoom
    ensures h.Valid() && h.Abs() == Step(old(h.Abs()), Child(x, p, outcome))
    ensures outcome.NoGroupState? <==> !groupRoom && old(h.hdrs)[Root(old(h.Abs()), p)].cold.None?
    ensures !outcome.NoGroupState? && !blockRoom ==> outcome.NoMemory?
    ensures !outcome.NoGroupState? && blockRoom ==> outcome == if linkRoom then Spec.Linked else Spec.NotLinked
  {
    hide Good;
    RootFacts(h.Abs(), p);
    ghost var v := h.Abs();
    var r := h.GroupRoot(p);
    var ok := h.InitRoot(r, groupRoom);
    if !ok {
      return Spec.NoGroupState;
    }
    if !blockRoom {
      return Spec.NoMemory;
    }
    InitFacts(v, p);
    ok := InlineLink(h, x, p, r, linkRoom);
    return if ok then Spec.Linked else Spec.NotLinked;
  }

  /** The block taken and linked in front of the chain, or given back. */
  method InlineLink(h: InlineHeaders.Headers, x: Addr, p: Addr, r: Addr, room: bool) returns (linked: bool)
    requires h.Valid() && Joins(h.Abs(), x, p, r) && (room ==> HasRoom(h.Abs(), r))
    modifies h
    ensures h.Valid() && linked == room
    ensures h.Abs() == if linked then Link(GroupView.Fresh(old(h.Abs()), x), x, p, r) else old(h.Abs())
  {
    hide Good;
    ghost var v := h.Abs();
    h.Fresh(x);
    linked := h.SetParent(x, p, room);
    if !linked {
      h.Die(x);
      h.DestroyMember(x);
      assert h.Abs() == v;
      return;
    }
    var ok := h.SetGroupRoot(x, r);
    var head := h.GroupHead(r);
    ok := h.SetGroupNext(x, head);
    ok := h.SetGroupHead(r, x);
    var count := h.LiveCount(r);
    ok := h.SetLiveCount(r, count + 1);
    assert h.Abs() == Link(GroupView.Fresh(v, x), x, p, r);
    return true;
  }

  method InlineDeath(h: InlineHeaders.Headers, x: Addr, ghost chain: seq<Addr>)
    requires h.Valid() && Needs(h.Abs(), Death(x, chain))
    modifies h
    ensures h.Valid() && h.Abs() == Step(old(h.Abs()), Death(x, chain))
  {
    hide Good, Walk;
    RootFacts(h.Abs(), x);
    var grouped, r := h.Grouped(x), h.GroupRoot(x);
    h.Die(x);
    if grouped {
      var count := h.LiveCount(r);
      var ok := h.SetLiveCount(r, count - 1);
      count := h.LiveCount(r);
      if count == 0 {
        var head := h.TearDown(r);
        InlineFree(h, head, chain);
      }
    }
  }

  // ---------------------------------------------------------------- the list runtime

  type ListHeaders = seq<Heap.Header>

  ghost function Project(h: Heap.Header): View {
    View(h.state.Live?, h.parent, h.group, h.next, h.head, h.count)
  }

  ghost function ProjectAll(hs: ListHeaders): (v: Views)
    ensures |v| == |hs|
  {
    seq(|hs|, x requires 0 <= x < |hs| => Project(hs[x]))
  }

  /** A header outside any group keeps no parent and no link, only a root keeps head and count, and
      counts have 32 bits. */
  ghost predicate TidyHeader(h: Heap.Header, x: Addr) {
    && (h.group == NIL ==> h.parent == NIL && h.next == NIL)
    && (h.group == x ==> h.parent == NIL)
    && (h.group != x || x == NIL ==> h.head == NIL && h.count == 0)
    && h.count < UINT32
  }

  ghost predicate Tidy(hs: ListHeaders) {
    forall x :: 0 <= x < |hs| ==> TidyHeader(hs[x], x)
  }

  /** No group has more live members than its count can hold. */
  ghost predicate Small(g: Spec.Groups) {
    forall r :: r in g.members ==> Heap.LiveIn(g.objs, g.members[r]) < UINT32
  }

  /** What the headers of a live object's group say. */
  lemma GroupFacts(hs: ListHeaders, events: seq<Spec.Event>, g: Spec.Groups, p: Addr)
    requires Heap.Represents(hs, events, g) && Spec.IsLive(g, p) && g.objs[p].root != NIL
    ensures var r, v := g.objs[p].root, ProjectAll(hs);
            && r in g.members && IsRoot(v, r) && v[p].root == r && v[p].live && 0 < p < |v|
            && v[r].count == Heap.LiveIn(g.objs, g.members[r]) > 0 && v[r].head == g.members[r][0] != NIL
  {
    var r := g.objs[p].root;
    Spec.RootIsHeld(g, p);
    assert Heap.Matches(hs[p], g.objs[p]) && Heap.Matches(hs[r], g.objs[r]) && Heap.Threaded(hs, g, r);
    Heap.LiveInZero(g.objs, g.members[r]);
  }

  lemma NilIsBlank(hs: ListHeaders, events: seq<Spec.Event>, g: Spec.Groups, a: Addr)
    requires Heap.Represents(hs, events, g) && Tidy(hs) && a < |hs| && g.objs[a].state.Free?
    ensures ProjectAll(hs)[a] == Blank(false)
  {
    assert Heap.Matches(hs[a], g.objs[a]) && TidyHeader(hs[a], a) && Spec.Placed(g, a);
  }

  /** Headers that represent a group heap are a state the setters can work on. */
  lemma TidyIsGood(hs: ListHeaders, events: seq<Spec.Event>, g: Spec.Groups)
    requires Heap.Represents(hs, events, g) && Tidy(hs)
    ensures Good(ProjectAll(hs))
  {
    hide Heap.LiveIn, Spec.BlocksOk;
    var v := ProjectAll(hs);
    NilIsBlank(hs, events, g, NIL);
    forall x | 0 <= x < |v|
      ensures if v[x].root == x && x != NIL then
                v[x].parent == NIL && v[x].head != NIL && v[x].count < UINT32 && (v[x].live ==> v[x].count > 0)
              else
                v[x].head == NIL && v[x].count == 0
                && (v[x].live && v[x].root != NIL ==> IsRoot(v, v[x].root) && v[v[x].root].count > 0)
    {
      assert TidyHeader(hs[x], x) && Heap.Matches(hs[x], g.objs[x]);
      if v[x].live && v[x].root != NIL { GroupFacts(hs, events, g, x); }
      if v[x].root == x && x != NIL {
        Spec.RootIsHeld(g, x);
        assert Heap.Threaded(hs, g, x);
      }
    }
  }

  /** The operation on the answers for one on the list runtime; an operation on a dead object is none. */
  ghost function ViewOp(g: Spec.Groups, op: Spec.Op): Op {
    match op
    case Alloc(a, _, _) => Alloc(a)
    case AllocChild(p, a, _, outcome) => Child(a, p, outcome)
    case Dispose(x) => Death(x, if x < |g.objs| && g.objs[x].root in g.members then g.members[g.objs[x].root] else [])
  }

  ghost predicate Idle(g: Spec.Groups, op: Spec.Op) {
    (op.AllocChild? && !Spec.IsLive(g, op.p)) || (op.Dispose? && !Spec.IsLive(g, op.x))
  }

  /** Every legal operation finds what the setters need: in particular a count of one means that every
      other member is dead, so that a count of zero is stored only with the whole group dead. */
  lemma Ready(hs: ListHeaders, events: seq<Spec.Event>, g: Spec.Groups, op: Spec.Op)
    requires Heap.Represents(hs, events, g) && Tidy(hs) && Spec.Legal(g, op) && !Idle(g, op) && Small(Spec.Step(g, op))
    ensures Needs(ProjectAll(hs), ViewOp(g, op))
  {
    match op
    case Alloc(a, _, _) => NilIsBlank(hs, events, g, a);
    case AllocChild(p, a, size, outcome) =>
      NilIsBlank(hs, events, g, a);
      assert Heap.Matches(hs[p], g.objs[p]) && TidyHeader(hs[p], p) && Spec.Placed(g, p)
        && Heap.Matches(hs[a], g.objs[a]);
      if outcome.Linked? { ReadyChild(hs, events, g, p, a, size); }
    case Dispose(x) =>
      assert Heap.Matches(hs[x], g.objs[x]) && Spec.Placed(g, x);
      if g.objs[x].root != NIL { ReadyDeath(hs, events, g, x); }
  }

  lemma ReadyChild(hs: ListHeaders, events: seq<Spec.Event>, g: Spec.Groups, p: Addr, a: Addr, size: nat)
    requires Heap.Represents(hs, events, g) && Tidy(hs) && Spec.IsLive(g, p) && NIL < a < |g.objs|
    requires g.objs[a].state.Free?
    requires Small(Spec.Step(g, Spec.AllocChild(p, a, size, Spec.Linked)))
    ensures Needs(ProjectAll(hs), Child(a, p, Spec.Linked))
  {
    hide Heap.LiveIn, Spec.BlocksOk, Heap.Threaded, Spec.GoodChain;
    NilIsBlank(hs, events, g, a);
    assert Heap.Matches(hs[p], g.objs[p]) && TidyHeader(hs[p], p) && Heap.Matches(hs[a], g.objs[a]);
    assert Spec.Placed(g, p);
    if g.objs[p].root != NIL {
      GroupFacts(hs, events, g, p);
      OneMoreLives(g, p, a, size);
    }
  }

  /** A linked member adds one to the live members of its group. */
  lemma OneMoreLives(g: Spec.Groups, p: Addr, a: Addr, size: nat)
    requires Spec.Inv(g) && Spec.IsLive(g, p) && g.objs[p].root != NIL && NIL < a < |g.objs| && g.objs[a].state.Free?
    ensures var r, g1 := g.objs[p].root, Spec.Step(g, Spec.AllocChild(p, a, size, Spec.Linked));
            && r in g.members && r in g1.members
            && Heap.LiveIn(g1.objs, g1.members[r]) == Heap.LiveIn(g.objs, g.members[r]) + 1
  {
    Spec.LinkedIs(g, p, a, size);
    var r, g1 := g.objs[p].root, Spec.Step(g, Spec.AllocChild(p, a, size, Spec.Linked));
    hide Spec.Step;
    assert r in g1.members && g1.members[r] == [a] + g.members[r] && g1.members[r][1..] == g.members[r];
    Spec.NilIsFree(g);
    Spec.Unchained(g, a);
    Heap.LiveInSame(g.objs, g1.objs, g.members[r]);
    assert Heap.LiveIn(g1.objs, g1.members[r]) == Heap.LiveIn(g1.objs, g.members[r]) + 1;
  }

  lemma ReadyDeath(hs: ListHeaders, events: seq<Spec.Event>, g: Spec.Groups, x: Addr)
    requires Heap.Represents(hs, events, g) && Tidy(hs) && Spec.IsLive(g, x) && g.objs[x].root != NIL
    ensures g.objs[x].root in g.members && Needs(ProjectAll(hs), Death(x, g.members[g.objs[x].root]))
  {
    hide Heap.LiveIn, Spec.BlocksOk;
    var v, r := ProjectAll(hs), g.objs[x].root;
    GroupFacts(hs, events, g, x);
    var chain := g.members[r];
    if v[r].count == 1 {
      Heap.DeathCounts(hs, events, g, x);
      var objs1 := g.objs[x := g.objs[x].(state := Spec.Disposed)];
      forall y | 0 <= y < |v| && Kill(v, x)[y].root == r ensures !Kill(v, x)[y].live {
        assert Heap.Matches(hs[y], g.objs[y]) && Spec.Placed(g, y);
        var i :| 0 <= i < |chain| && chain[i] == y;
        assert !objs1[chain[i]].state.Live?;
      }
      ReadyWalk(hs, events, g, x);
    }
  }

  lemma ReadyWalk(hs: ListHeaders, events: seq<Spec.Event>, g: Spec.Groups, x: Addr)
    requires Heap.Represents(hs, events, g) && Tidy(hs) && Spec.IsLive(g, x) && g.objs[x].root != NIL
    requires g.objs[x].root in g.members && g.objs[x].root < |hs|
    ensures var v, r := ProjectAll(hs), g.objs[x].root;
            r in g.members[r] && Walk(Reset(SetCount(Kill(v, x), r, 0), r), v[r].head, g.members[r])
  {
    hide Heap.LiveIn, Spec.BlocksOk;
    var v, r := ProjectAll(hs), g.objs[x].root;
    var w, chain := Reset(SetCount(Kill(v, x), r, 0), r), g.members[r];
    GroupFacts(hs, events, g, x);
    Spec.ChainFacts(g, r);
    assert Spec.GoodChain(g, r) && Heap.Threaded(hs, g, r);
    forall i | 0 <= i < |chain| ensures WalkAt(w, chain, i) {
      assert Heap.Follows(hs, chain, i) && Heap.Matches(hs[chain[i]], g.objs[chain[i]]);
    }
  }

  // ---------------------------------------------------------------- its header writes are the setters

  /** The header writes of a child allocation are the five setters in order. */
  lemma LinkIsFiveSetters(hs: ListHeaders, p: Addr, a: Addr, size: nat, root: Addr)
    requires a < |hs| && root < |hs| && root != a && hs[root].group == root
    ensures ProjectAll(Heap.LinkedHeaders(hs, p, a, size, root)) ==
            Link(GroupView.Fresh(ProjectAll(hs), a), a, p, root)
  {
  }

  lemma InitIsInit(hs: ListHeaders, p: Addr)
    requires p < |hs| && hs[p].group == NIL
    ensures ProjectAll(Heap.RootHeaders(hs, p)) == Init(ProjectAll(hs), p)
  {
  }

  lemma DeathIsKillAndCount(hs: ListHeaders, x: Addr, root: Addr)
    requires x < |hs| && root < |hs| && hs[root].count > 0
    ensures var v := Kill(ProjectAll(hs), x);
            ProjectAll(Heap.MarkedDead(hs, x, root)) == SetCount(v, root, v[root].count - 1)
  {
  }

  lemma TeardownIsResets(hs: ListHeaders, chain: seq<Addr>, root: Addr)
    requires root < |hs| && root in chain && Tidy(hs)
    requires forall y :: 0 <= y < |hs| && y in chain ==> !hs[y].state.Live? && (y != root ==> hs[y].group != y)
    ensures ProjectAll(Heap.FreedHeaders(hs, chain, root)) == Resets(Reset(ProjectAll(hs), root), chain)
  {
    forall y | 0 <= y < |hs|
      ensures Project(Heap.FreedHeaders(hs, chain, root)[y]) == Resets(Reset(ProjectAll(hs), root), chain)[y]
    {
      assert TidyHeader(hs[y], y);
    }
  }

  /** Every operation of the list runtime is the one of the answers. */
  lemma NextIsStep(hs: ListHeaders, events: seq<Spec.Event>, g: Spec.Groups, op: Spec.Op)
    requires Heap.Represents(hs, events, g) && Tidy(hs) && Spec.Legal(g, op) && !Idle(g, op) && Small(Spec.Step(g, op))
    requires Good(ProjectAll(hs)) && Needs(ProjectAll(hs), ViewOp(g, op))
    ensures ProjectAll(Heap.NextHeaders(hs, g, op)) == Step(ProjectAll(hs), ViewOp(g, op))
  {
    hide Heap.LiveIn, Spec.BlocksOk, Good, Walk;
    match op
    case Alloc(a, size, alloc) =>
    case AllocChild(p, a, size, outcome) => ChildIsStep(hs, events, g, p, a, size, outcome);
    case Dispose(x) => DeathIsStep(hs, events, g, x);
  }

  lemma ChildIsStep(hs: ListHeaders, events: seq<Spec.Event>, g: Spec.Groups, p: Addr, a: Addr, size: nat,
                    outcome: Spec.Outcome)
    requires Heap.Represents(hs, events, g) && Tidy(hs) && Spec.IsLive(g, p) && NIL < a < |g.objs|
    requires g.objs[a].state.Free?
    requires Good(ProjectAll(hs)) && Needs(ProjectAll(hs), Child(a, p, outcome))
    ensures ProjectAll(Heap.ChildHeaders(hs, g, p, a, size, outcome)) == Step(ProjectAll(hs), Child(a, p, outcome))
  {
    hide Good, Heap.LiveIn, Spec.BlocksOk;
    var v := ProjectAll(hs);
    assert Heap.Matches(hs[p], g.objs[p]);
    RootFacts(v, p);
    assert Root(v, p) == Spec.RootOf(g, p);
    if g.objs[p].root == NIL {
      InitIsInit(hs, p);
      LinkIsFiveSetters(Heap.RootHeaders(hs, p), p, a, size, p);
    } else {
      GroupFacts(hs, events, g, p);
      LinkIsFiveSetters(hs, p, a, size, g.objs[p].root);
    }
  }

  lemma DeathIsStep(hs: ListHeaders, events: seq<Spec.Event>, g: Spec.Groups, x: Addr)
    requires Heap.Represents(hs, events, g) && Tidy(hs) && Spec.IsLive(g, x)
    requires Good(ProjectAll(hs)) && Needs(ProjectAll(hs), ViewOp(g, Spec.Dispose(x)))
    ensures ProjectAll(Heap.DisposedHeaders(hs, g, x)) == Step(ProjectAll(hs), ViewOp(g, Spec.Dispose(x)))
  {
    hide Good, Heap.LiveIn, Spec.BlocksOk, Walk;
    assert Heap.Matches(hs[x], g.objs[x]);
    if g.objs[x].root != NIL {
      var r := g.objs[x].root;
      GroupFacts(hs, events, g, x);
      DeathIsKillAndCount(hs, x, r);
      var hs1, chain := Heap.MarkedDead(hs, x, r), g.members[r];
      if hs1[r].count == 0 {
        Heap.DeathCounts(hs, events, g, x);
        LastChain(hs, events, g, x);
        TeardownIsResets(hs1, chain, r);
      }
    }
  }

  /** The chain of a group whose last member is marked dead. */
  lemma LastChain(hs: ListHeaders, events: seq<Spec.Event>, g: Spec.Groups, x: Addr)
    requires Heap.Represents(hs, events, g) && Tidy(hs) && Spec.IsLive(g, x) && g.objs[x].root != NIL
    requires g.objs[x].root in g.members && g.objs[x].root < |hs|
    requires !Spec.AnyLive(g.objs[x := g.objs[x].(state := Spec.Disposed)], g.members[g.objs[x].root])
    ensures var r, hs1 := g.objs[x].root, Heap.MarkedDead(hs, x, g.objs[x].root);
            && r in g.members[r] && Tidy(hs1)
            && forall y :: 0 <= y < |hs| && y in g.members[r] ==> !hs1[y].state.Live? && (y != r ==> hs1[y].group != y)
  {
    var r := g.objs[x].root;
    var hs1, chain := Heap.MarkedDead(hs, x, r), g.members[r];
    Spec.RootIsHeld(g, x);
    forall y | 0 <= y < |hs| ensures TidyHeader(hs1[y], y) {
      assert TidyHeader(hs[y], y);
    }
    forall y | 0 <= y < |hs| && y in chain ensures !hs1[y].state.Live? && (y != r ==> hs1[y].group != y) {
      var i :| 0 <= i < |chain| && chain[i] == y;
      assert Heap.Matches(hs[y], g.objs[y]) && !g.objs[x := g.objs[x].(state := Spec.Disposed)][chain[i]].state.Live?;
    }
  }

  /** Headers stay tidy. */
  lemma TidyKept(hs: ListHeaders, events: seq<Spec.Event>, g: Spec.Groups, op: Spec.Op)
    requires Heap.Represents(hs, events, g) && Tidy(hs) && Spec.Legal(g, op) && Small(Spec.Step(g, op))
    ensures Tidy(Heap.NextHeaders(hs, g, op))
  {
    hide Heap.LiveIn, Spec.BlocksOk;
    var hs1 := Heap.NextHeaders(hs, g, op);
    match op
    case Alloc(a, size, alloc) =>
      forall y | 0 <= y < |hs| ensures TidyHeader(hs1[y], y) { assert TidyHeader(hs[y], y); }
    case AllocChild(p, a, size, outcome) => TidyChild(hs, events, g, p, a, size, outcome);
    case Dispose(x) => TidyDeath(hs, events, g, x);
  }

  lemma TidyChild(hs: ListHeaders, events: seq<Spec.Event>, g: Spec.Groups, p: Addr, a: Addr, size: nat,
                  outcome: Spec.Outcome)
    requires Heap.Represents(hs, events, g) && Tidy(hs) && NIL < a < |g.objs| && g.objs[a].state.Free?
    requires Small(Spec.Step(g, Spec.AllocChild(p, a, size, outcome)))
    ensures Tidy(Heap.ChildHeaders(hs, g, p, a, size, outcome))
  {
    hide Heap.LiveIn, Spec.BlocksOk;
    var hs1 := Heap.ChildHeaders(hs, g, p, a, size, outcome);
    if Spec.IsLive(g, p) && !outcome.NoGroupState? {
      assert Heap.Matches(hs[p], g.objs[p]) && TidyHeader(hs[p], p) && Spec.Placed(g, p);
      if outcome.Linked? { ReadyChild(hs, events, g, p, a, size); }
      if g.objs[p].root != NIL { GroupFacts(hs, events, g, p); }
      forall y | 0 <= y < |hs| ensures TidyHeader(hs1[y], y) { assert TidyHeader(hs[y], y); }
    }
  }

  lemma TidyDeath(hs: ListHeaders, events: seq<Spec.Event>, g: Spec.Groups, x: Addr)
    requires Heap.Represents(hs, events, g) && Tidy(hs)
    ensures Tidy(Heap.DisposedHeaders(hs, g, x))
  {
    hide Heap.LiveIn, Spec.BlocksOk, Heap.Threaded, Spec.GoodChain;
    var hs1 := Heap.DisposedHeaders(hs, g, x);
    if Spec.IsLive(g, x) {
      if g.objs[x].root == NIL {
        forall y | 0 <= y < |hs| ensures TidyHeader(hs1[y], y) { assert TidyHeader(hs[y], y); }
      } else {
        TidyMember(hs, events, g, x);
      }
    }
  }

  lemma TidyMember(hs: ListHeaders, events: seq<Spec.Event>, g: Spec.Groups, x: Addr)
    requires Heap.Represents(hs, events, g) && Tidy(hs) && Spec.IsLive(g, x) && g.objs[x].root != NIL
    ensures Tidy(Heap.DisposedHeaders(hs, g, x))
  {
    hide Heap.Represents, Heap.LiveIn, Spec.BlocksOk, Spec.AnyLive;
    var r := g.objs[x].root;
    GroupFacts(hs, events, g, x);
    Heap.DeathCounts(hs, events, g, x);
    var hs1 := Heap.MarkedDead(hs, x, r);
    forall y | 0 <= y < |hs| ensures TidyHeader(hs1[y], y) { assert TidyHeader(hs[y], y); }
    if hs1[r].count == 0 {
      LastChain(hs, events, g, x);
      TidyFreed(hs1, g.members[r], r);
    }
  }

  lemma TidyFreed(hs: ListHeaders, chain: seq<Addr>, r: Addr)
    requires r < |hs| && Tidy(hs) && r in chain && forall y :: 0 <= y < |hs| && y in chain ==> y != r ==>
             hs[y].group != y
    ensures Tidy(Heap.FreedHeaders(hs, chain, r))
  {
    var hs1 := Heap.FreedHeaders(hs, chain, r);
    forall y | 0 <= y < |hs| ensures TidyHeader(hs1[y], y) { assert TidyHeader(hs[y], y); }
  }

  // ---------------------------------------------------------------- runs

  /** Group state can be missing only where there is no group yet. */
  ghost predicate CanHappen(g: Spec.Groups, op: Spec.Op) {
    op.AllocChild? && op.outcome.NoGroupState? && Spec.IsLive(g, op.p) ==> g.objs[op.p].root == NIL
  }

  /** Addresses handed out are free, and no count overflows; nothing is asked of a death. */
  ghost predicate LegalRun(g: Spec.Groups, ops: seq<Spec.Op>)
    requires Spec.Inv(g)
    decreases |ops|
  {
    ops == [] ||
    (Spec.Legal(g, ops[0]) && Small(Spec.Step(g, ops[0])) && CanHappen(g, ops[0])
     && (Spec.StepKeeps(g, ops[0]); LegalRun(Spec.Step(g, ops[0]), ops[1..])))
  }

  /** One operation of the list runtime, as its callers make it. */
  method ListStep(d: Heap.GroupHeap, op: Spec.Op)
    requires d.Valid() && Spec.Legal(d.g, op) && CanHappen(d.g, op)
    modifies d
    ensures d.Valid() && d.g == Spec.Step(old(d.g), op) && d.hdrs == Heap.NextHeaders(old(d.hdrs), old(d.g), op)
  {
    hide Heap.Represents, Spec.Inv;
    match op
    case Alloc(a, size, alloc) => d.AllocObject(a, size, alloc);
    case AllocChild(p, a, size, outcome) =>
      var groupRoom, blockRoom := !outcome.NoGroupState?, outcome.Linked? || outcome.NotLinked?;
      var obj := d.AllocChild(p, a, size, groupRoom, blockRoom, outcome.Linked?);
    case Dispose(x) => d.Dispose(x);
  }

  /** A child allocation of a given outcome in the default layout. Its setters cannot fail: it is not asked for the
      group that the other layouts find no memory for, and where they cannot link a block it has not got one. */
  method DefaultTry(h: DefaultHeaders.Headers, x: Addr, p: Addr, outcome: Spec.Outcome)
    requires h.Valid() && Needs(h.Abs(), Child(x, p, outcome))
    modifies h
    ensures h.Valid() && h.Abs() == Step(old(h.Abs()), Child(x, p, outcome))
  {
    hide Good;
    if !outcome.NoGroupState? {
      var got := DefaultChild(h, x, p, outcome.Linked?);
    }
  }

  /** The same in the compact layout. */
  method CompactTry(h: CompactHeaders.Headers, x: Addr, p: Addr, outcome: Spec.Outcome)
    requires h.Valid() && Needs(h.Abs(), Child(x, p, outcome))
    requires outcome.NoGroupState? ==> h.Abs()[p].root == NIL
    modifies h
    ensures h.Valid() && h.Abs() == Step(old(h.Abs()), Child(x, p, outcome))
  {
    hide Good;
    var groupRoom, blockRoom := !outcome.NoGroupState?, outcome.Linked? || outcome.NotLinked?;
    var got := CompactChild(h, x, p, groupRoom, blockRoom, outcome.Linked?);
    assert got == outcome;
  }

  /** The same in the inline layout, which is not asked for a group whose cold record it has already. */
  method InlineTry(h: InlineHeaders.Headers, x: Addr, p: Addr, outcome: Spec.Outcome)
    requires h.Valid() && Needs(h.Abs(), Child(x, p, outcome))
    requires outcome.NoGroupState? ==> h.Abs()[p].root == NIL
    modifies h
    ensures h.Valid() && h.Abs() == Step(old(h.Abs()), Child(x, p, outcome))
  {
    hide Good;
    if !outcome.NoGroupState? || h.hdrs[p].cold.None? {
      var groupRoom, blockRoom := !outcome.NoGroupState?, outcome.Linked? || outcome.NotLinked?;
      var got := InlineChild(h, x, p, groupRoom, blockRoom, outcome.Linked?);
      assert got == outcome;
    }
  }

  /** The same operation in the default layout. */
  method DefaultStep(h: DefaultHeaders.Headers, op: Spec.Op, ghost hs: ListHeaders, ghost events: seq<Spec.Event>,
                     ghost g: Spec.Groups)
    requires h.Valid() && h.Abs() == ProjectAll(hs) && Heap.Represents(hs, events, g) && Tidy(hs)
    requires Spec.Legal(g, op) && Small(Spec.Step(g, op)) && CanHappen(g, op)
    modifies h
    ensures h.Valid() && h.Abs() == ProjectAll(Heap.NextHeaders(hs, g, op))
  {
    hide Good, Heap.Represents, Spec.Inv, Tidy, Small, Walk;
    SameLive(hs, events, g, op);
    if !Idle(g, op) {
      TidyIsGood(hs, events, g);
      Ready(hs, events, g, op);
      NextIsStep(hs, events, g, op);
    }
    match op
    case Alloc(a, size, alloc) => h.Fresh(a);
    case AllocChild(p, a, size, outcome) =>
      if p < |h.hdrs| && h.hdrs[p].live {
        DefaultTry(h, a, p, outcome);
      }
    case Dispose(x) =>
      if x < |h.hdrs| && h.hdrs[x].live {
        DefaultDeath(h, x, ViewOp(g, op).chain);
      }
  }

  /** The same operation in the compact layout. */
  method CompactStep(h: CompactHeaders.Headers, op: Spec.Op, ghost hs: ListHeaders, ghost events: seq<Spec.Event>,
                     ghost g: Spec.Groups)
    requires h.Valid() && h.Abs() == ProjectAll(hs) && Heap.Represents(hs, events, g) && Tidy(hs)
    requires Spec.Legal(g, op) && Small(Spec.Step(g, op)) && CanHappen(g, op)
    modifies h
    ensures h.Valid() && h.Abs() == ProjectAll(Heap.NextHeaders(hs, g, op))
  {
    hide Good, Heap.Represents, Spec.Inv, Tidy, Small, Walk;
    SameLive(hs, events, g, op);
    if !Idle(g, op) {
      TidyIsGood(hs, events, g);
      Ready(hs, events, g, op);
      NextIsStep(hs, events, g, op);
    }
    match op
    case Alloc(a, size, alloc) => h.Fresh(a);
    case AllocChild(p, a, size, outcome) =>
      if p < |h.hdrs| && h.hdrs[p].live {
        CompactTry(h, a, p, outcome);
      }
    case Dispose(x) =>
      if x < |h.hdrs| && h.hdrs[x].live {
        CompactDeath(h, x, ViewOp(g, op).chain);
      }
  }

  /** The same operation in the inline layout. */
  method InlineStep(h: InlineHeaders.Headers, op: Spec.Op, ghost hs: ListHeaders, ghost events: seq<Spec.Event>,
                    ghost g: Spec.Groups)
    requires h.Valid() && h.Abs() == ProjectAll(hs) && Heap.Represents(hs, events, g) && Tidy(hs)
    requires Spec.Legal(g, op) && Small(Spec.Step(g, op)) && CanHappen(g, op)
    modifies h
    ensures h.Valid() && h.Abs() == ProjectAll(Heap.NextHeaders(hs, g, op))
  {
    hide Good, Heap.Represents, Spec.Inv, Tidy, Small, Walk;
    SameLive(hs, events, g, op);
    if !Idle(g, op) {
      TidyIsGood(hs, events, g);
      Ready(hs, events, g, op);
      NextIsStep(hs, events, g, op);
    }
    match op
    case Alloc(a, size, alloc) => h.Fresh(a);
    case AllocChild(p, a, size, outcome) =>
      if p < |h.hdrs| && h.hdrs[p].live {
        InlineTry(h, a, p, outcome);
      }
    case Dispose(x) =>
      if x < |h.hdrs| && h.hdrs[x].live {
        InlineDeath(h, x, ViewOp(g, op).chain);
      }
  }

  /** Liveness as the headers give it, and nothing to do for what is not live. */
  lemma SameLive(hs: ListHeaders, events: seq<Spec.Event>, g: Spec.Groups, op: Spec.Op)
    requires Heap.Represents(hs, events, g) && Spec.Legal(g, op)
    ensures |hs| == |g.objs|
    ensures forall x :: 0 <= x < |hs| ==>
              (ProjectAll(hs)[x].live <==> Spec.IsLive(g, x)) && ProjectAll(hs)[x].root == g.objs[x].root
    ensures Idle(g, op) ==> Heap.NextHeaders(hs, g, op) == hs
  {
    forall x | 0 <= x < |hs|
      ensures (ProjectAll(hs)[x].live <==> Spec.IsLive(g, x)) && ProjectAll(hs)[x].root == g.objs[x].root
    {
      assert Heap.Matches(hs[x], g.objs[x]);
    }
  }

  /** The same run in the list runtime and in all three layouts leaves the layouts with one common answer
      to every getter, the linked headers' own: each getter is a function of these views. */
  method Lockstep(n: nat, ops: seq<Spec.Op>)
      returns (d: Heap.GroupHeap, a: DefaultHeaders.Headers, b: CompactHeaders.Headers, c: InlineHeaders.Headers)
    requires n > 0 && LegalRun(Spec.Start(n), ops)
    ensures d.Valid() && a.Valid() && b.Valid() && c.Valid()
    ensures d.g == Spec.Run(Spec.Start(n), ops)
    ensures a.Abs() == b.Abs() == c.Abs() == ProjectAll(d.hdrs)
  {
    d := new Heap.GroupHeap(n);
    a := new DefaultHeaders.Headers(n);
    b := new CompactHeaders.Headers(n);
    c := new InlineHeaders.Headers(n);
    StartIsTidy(d.hdrs, n);
    var i := 0;
    while i < |ops|
      invariant i <= |ops| && d.Valid() && a.Valid() && b.Valid() && c.Valid()
      invariant a.Abs() == b.Abs() == c.Abs() == ProjectAll(d.hdrs) && Tidy(d.hdrs)
      invariant Spec.Inv(d.g) && LegalRun(d.g, ops[i..]) && Spec.Run(d.g, ops[i..]) == Spec.Run(Spec.Start(n), ops)
      invariant fresh(d) && fresh(a) && fresh(b) && fresh(c)
    {
      hide Heap.Represents, Spec.Inv, Tidy, Small;
      assert ops[i..][1..] == ops[i + 1..];
      Spec.StepKeeps(d.g, ops[i]);
      ghost var hs, events, g := d.hdrs, d.events, d.g;
      ListStep(d, ops[i]);
      TidyKept(hs, events, g, ops[i]);
      DefaultStep(a, ops[i], hs, events, g);
      CompactStep(b, ops[i], hs, events, g);
      InlineStep(c, ops[i], hs, events, g);
      i := i + 1;
    }
  }

  lemma StartIsTidy(hs: ListHeaders, n: nat)
    requires n > 0 && hs == seq(n, _ => Heap.Header(Spec.Free, 0, 0, NIL, NIL, NIL, NIL, 0))
    ensures Tidy(hs) && ProjectAll(hs) == seq(n, _ => View(false, NIL, NIL, NIL, NIL, 0))
  {
  }
}

/** The compact layout with group state kept out of line: a header points at a lazily allocated cold
    record, and the cold record of a root at a group record. Either allocation can fail. */
module CompactHeaders {

  import opened Wrappers
  import opened GroupView

  datatype Group = Group(root: Addr, head: Addr, count: nat, dead: bool)

  datatype Cold = Cold(parent: Addr, groupRoot: Addr, groupNext: Addr, group: Option<Group>)

  datatype Hdr = Hdr(live: bool, groupDead: bool, cold: Option<Cold>)

  function ViewOf(h: Hdr, x: Addr): View {
    if h.cold.None? then View(h.live, NIL, NIL, NIL, NIL, 0)
    else
      var c := h.cold.value;
      if c.groupRoot != NIL then View(h.live, c.parent, c.groupRoot, c.groupNext, NIL, 0)
      else if c.group.Some? then
        View(h.live, c.parent, x, c.groupNext, if c.group.value.head != NIL then c.group.value.head
          else x, c.group.value.count)
      else View(h.live, c.parent, NIL, c.groupNext, NIL, 0)
  }

  function AbsOf(hs: seq<Hdr>): (v: Views)
    ensures |v| == |hs| && forall x :: 0 <= x < |hs| ==> v[x] == ViewOf(hs[x], x)
  {
    seq(|hs|, x requires 0 <= x < |hs| => ViewOf(hs[x], x))
  }

  ghost predicate GoodHeader(h: Hdr, x: Addr) {
    && (h.live && !(h.cold.Some? && h.cold.value.group.Some?) ==> !h.groupDead)
    && (h.cold.Some? ==>
          var c := h.cold.value;
          && c.groupRoot != x
          && (c.group.Some? ==>
                && c.groupRoot == NIL && c.group.value.root == x
                && (c.group.value.dead <==> c.group.value.count == 0) && (h.groupDead <==> c.group.value.dead)))
  }

  ghost predicate ValidHeaders(hs: seq<Hdr>) {
    Good(AbsOf(hs)) && forall x :: 0 <= x < |hs| ==> GoodHeader(hs[x], x)
  }

  /** Writing one header changes one view. */
  lemma Update(hs: seq<Hdr>, x: Addr, h: Hdr)
    requires ValidHeaders(hs) && x < |hs| && GoodHeader(h, x) && Good(AbsOf(hs)[x := ViewOf(h, x)])
    ensures AbsOf(hs[x := h]) == AbsOf(hs)[x := ViewOf(h, x)]
    ensures ValidHeaders(hs[x := h])
  {
    assert AbsOf(hs[x := h]) == AbsOf(hs)[x := ViewOf(h, x)];
  }

  class Headers {
    var hdrs: seq<Hdr>

    ghost function Abs(): Views
      reads this
    {
      AbsOf(hdrs)
    }

    ghost predicate Valid()
      reads this
    {
      ValidHeaders(hdrs)
    }

    constructor (n: nat)
      requires n > 0
      ensures Valid() && Abs() == seq(n, _ => View(false, NIL, NIL, NIL, NIL, 0))
    {
      hdrs := seq(n, _ => Hdr(false, false, None));
    }

    function GroupRoot(x: Addr): (r: Addr)
      requires Valid() && x < |hdrs|
      reads this
      ensures r == Root(Abs(), x)
    {
      assert GoodHeader(hdrs[x], x);
      if hdrs[x].cold.Some? && hdrs[x].cold.value.groupRoot != NIL then hdrs[x].cold.value.groupRoot else x
    }

    /** sf_header_group_state_local. */
    function GroupState(x: Addr): (g: Option<Group>)
      requires Valid() && Settled(Abs(), x)
      reads this
      ensures g.Some? <==> Abs()[x].root != NIL
      ensures g.Some? ==> hdrs[Abs()[x].root].cold.Some? && g == hdrs[Abs()[x].root].cold.value.group
    {
      var root := GroupRoot(x);
      assert GoodHeader(hdrs[root], root);
      if hdrs[root].cold.Some? then hdrs[root].cold.value.group else None
    }

    function GroupNext(x: Addr): (r: Addr)
      requires Valid() && x < |hdrs|
      reads this
      ensures r == Abs()[x].next
    {
      if hdrs[x].cold.Some? then hdrs[x].cold.value.groupNext else NIL
    }

    function GroupHead(x: Addr): (r: Addr)
      requires Valid() && Settled(Abs(), x)
      reads this
      ensures r == Head(Abs(), x)
    {
      var g := GroupState(x);
      assert GoodHeader(hdrs[GroupRoot(x)], GroupRoot(x));
      if g.Some? && g.value.head != NIL then g.value.head else GroupRoot(x)
    }

    function LiveCount(x: Addr): (r: nat)
      requires Valid() && Settled(Abs(), x)
      reads this
      ensures r == Count(Abs(), x)
    {
      var g := GroupState(x);
      assert GoodHeader(hdrs[GroupRoot(x)], GroupRoot(x));
      if g.Some? then g.value.count else if hdrs[x].live then 1 else 0
    }

    function Parent(x: Addr): (r: Addr)
      requires Valid() && x < |hdrs|
      reads this
      ensures r == Abs()[x].parent
    {
      if hdrs[x].cold.Some? then hdrs[x].cold.value.parent else NIL
    }

    predicate Grouped(x: Addr)
      requires Valid() && Settled(Abs(), x)
      reads this
      ensures Grouped(x) <==> Abs()[x].root != NIL
    {
      GroupState(x).Some?
    }

    predicate GroupDead(x: Addr)
      requires Valid() && Settled(Abs(), x) && (Abs()[x].root != NIL || Abs()[x].live)
      reads this
      ensures GroupDead(x) <==> Abs()[x].root != NIL && Count(Abs(), x) == 0
    {
      var root := GroupRoot(x);
      assert GoodHeader(hdrs[root], root);
      hdrs[root].groupDead || (GroupState(root).Some? && GroupState(root).value.dead)
    }

    /** sf_init_allocated_header, as far as the group answers go. */
    method Fresh(x: Addr)
      requires Valid() && 0 < x < |hdrs| && !IsRoot(Abs(), x)
      modifies this
      ensures Valid() && Abs() == GroupView.Fresh(old(Abs()), x) && hdrs[x].cold.None?
    {
      var hdr := Hdr(true, false, None);
      FreshGood(Abs(), x);
      Update(hdrs, x, hdr);
      hdrs := hdrs[x := hdr];
    }

    /** sf_header_ensure_cold_state. */
    method EnsureCold(x: Addr, room: bool) returns (ok: bool)
      requires Valid() && 0 < x < |hdrs|
      modifies this
      ensures Valid() && Abs() == old(Abs()) && ok == (old(hdrs)[x].cold.Some? || room) == hdrs[x].cold.Some?
    {
      if hdrs[x].cold.Some? {
        return true;
      }
      if !room {
        return false;
      }
      assert GoodHeader(hdrs[x], x);
      var h := hdrs[x].(cold := Some(Cold(NIL, NIL, NIL, None)));
      assert Abs()[x := ViewOf(h, x)] == Abs();
      Update(hdrs, x, h);
      hdrs := hdrs[x := h];
      return true;
    }

    /** A failure of either allocation leaves no trace in the answers. */
    method InitRoot(x: Addr, groupRoom: bool, coldRoom: bool) returns (ok: bool)
      requires Valid() && 0 < x < |hdrs| && Root(Abs(), x) == x && (Abs()[x].root == NIL ==> Abs()[x].parent == NIL)
      modifies this
      ensures Valid() && (groupRoom && coldRoom ==> ok)
      ensures !groupRoom ==> (ok <==> old(Abs())[x].root != NIL)
      ensures Abs() == if ok then Init(old(Abs()), x) else old(Abs())
    {
      assert GoodHeader(hdrs[x], x);
      if GroupState(x).Some? {
        return true;
      }
      if !groupRoom {
        return false;
      }
      var group := Group(x, x, 1, false);
      ok := EnsureCold(x, coldRoom);
      if !ok {
        return false;
      }
      var hdr := hdrs[x].(cold := Some(hdrs[x].cold.value.(group := Some(group), groupNext := NIL)),
        groupDead := false);
      InitGood(Abs(), x);
      Update(hdrs, x, hdr);
      hdrs := hdrs[x := hdr];
    }

    /** The one setter of child linking that can fail, and it comes first. */
    method SetParent(x: Addr, p: Addr, room: bool) returns (ok: bool)
      requires Valid() && 0 < x < |hdrs| && !IsRoot(Abs(), x)
      modifies this
      ensures Valid() && (room || p == NIL ==> ok)
      ensures p != NIL && !room ==> (ok <==> old(hdrs)[x].cold.Some?)
      ensures Abs() == if ok then GroupView.SetParent(old(Abs()), x, p) else old(Abs())
    {
      if p == NIL && hdrs[x].cold.None? {
        assert Abs() == GroupView.SetParent(Abs(), x, p);
        return true;
      }
      ok := EnsureCold(x, room);
      if !ok {
        return false;
      }
      assert GoodHeader(hdrs[x], x);
      var h := hdrs[x].(cold := Some(hdrs[x].cold.value.(parent := p)));
      assert GoodHeader(h, x) && ViewOf(h, x) == ViewOf(hdrs[x], x).(parent := p);
      SetParentGood(Abs(), x, p);
      Update(hdrs, x, h);
      hdrs := hdrs[x := h];
    }

    method SetGroupRoot(x: Addr, r: Addr) returns (ok: bool)
      requires Valid() && 0 < x < |hdrs| && x != r && IsRoot(Abs(), r) && Abs()[r].count > 0
      requires Abs()[x].root == NIL && Abs()[x].parent != NIL
      modifies this
      ensures Valid() && ok && Abs() == Join(old(Abs()), x, r)
    {
      var rooted := InitRoot(r, true, true);
      ok := EnsureCold(x, false);
      assert GoodHeader(hdrs[x], x);
      var hdr := hdrs[x].(cold := Some(hdrs[x].cold.value.(groupRoot := r)));
      JoinGood(Abs(), x, r);
      Update(hdrs, x, hdr);
      hdrs := hdrs[x := hdr];
    }

    method SetGroupNext(x: Addr, n: Addr) returns (ok: bool)
      requires Valid() && 0 < x < |hdrs| && Abs()[x].root != NIL
      modifies this
      ensures Valid() && ok && Abs() == SetNext(old(Abs()), x, n)
    {
      ok := EnsureCold(x, false);
      assert GoodHeader(hdrs[x], x);
      var hdr := hdrs[x].(cold := Some(hdrs[x].cold.value.(groupNext := n)));
      SetNextGood(Abs(), x, n);
      Update(hdrs, x, hdr);
      hdrs := hdrs[x := hdr];
    }

    method SetGroupHead(r: Addr, h: Addr) returns (ok: bool)
      requires Valid() && IsRoot(Abs(), r) && h != NIL
      modifies this
      ensures Valid() && ok && Abs() == SetHead(old(Abs()), r, h)
    {
      assert GoodHeader(hdrs[r], r);
      var group := GroupState(r).value;
      var hdr := hdrs[r].(cold := Some(hdrs[r].cold.value.(group := Some(group.(head := h)))));
      SetHeadGood(Abs(), r, h);
      Update(hdrs, r, hdr);
      hdrs := hdrs[r := hdr];
      return true;
    }

    method SetLiveCount(r: Addr, c: nat) returns (ok: bool)
      requires Valid() && IsRoot(Abs(), r) && c < UINT32 && (c == 0 ==> AllDead(Abs(), r))
      modifies this
      ensures Valid() && ok && Abs() == SetCount(old(Abs()), r, c)
    {
      assert GoodHeader(hdrs[r], r);
      var group := GroupState(r).value.(count := c, dead := c == 0);
      var hdr := hdrs[r].(cold := Some(hdrs[r].cold.value.(group := Some(group))), groupDead := c == 0);
      SetCountGood(Abs(), r, c);
      Update(hdrs, r, hdr);
      hdrs := hdrs[r := hdr];
      return true;
    }

    method Die(x: Addr)
      requires Valid() && 0 < x < |hdrs| && (IsRoot(Abs(), x) ==> Abs()[x].count > 0)
      modifies this
      ensures Valid() && Abs() == Kill(old(Abs()), x)
    {
      assert GoodHeader(hdrs[x], x);
      var hdr := hdrs[x].(live := false, groupDead := false);
      KillGood(Abs(), x);
      Update(hdrs, x, hdr);
      hdrs := hdrs[x := hdr];
    }

    method DestroyMember(x: Addr)
      requires Valid() && 0 < x < |hdrs| && !IsRoot(Abs(), x)
      modifies this
      ensures Valid() && Abs() == Reset(old(Abs()), x)
    {
      assert GoodHeader(hdrs[x], x);
      var hdr := hdrs[x].(cold := None);
      ResetGood(Abs(), x);
      Update(hdrs, x, hdr);
      hdrs := hdrs[x := hdr];
    }

    method TearDown(r: Addr) returns (head: Addr)
      requires Valid() && IsRoot(Abs(), r) && Abs()[r].count == 0
      modifies this
      ensures Valid() && head == Head(old(Abs()), r) && Abs() == Reset(old(Abs()), r)
    {
      assert GoodHeader(hdrs[r], r);
      head := GroupHead(r);
      var hdr := hdrs[r].(cold := None);
      ResetGood(Abs(), r);
      Update(hdrs, r, hdr);
      hdrs := hdrs[r := hdr];
    }
  }
}

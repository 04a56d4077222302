/** The compact layout with group state kept in the cold record itself. */
module InlineHeaders {

  import opened Wrappers
  import opened GroupView

  datatype Cold = Cold(parent: Addr, groupRoot: Addr, groupNext: Addr, head: Addr, count: nat, dead: bool)

  datatype Hdr = Hdr(live: bool, groupDead: bool, cold: Option<Cold>)

  function ViewOf(h: Hdr, x: Addr): View {
    if h.cold.None? then View(h.live, NIL, NIL, NIL, NIL, 0)
    else
      var c := h.cold.value;
      if c.groupRoot != NIL then View(h.live, c.parent, c.groupRoot, c.groupNext, NIL, 0)
      else if c.count != 0 || c.head != NIL then View(h.live, c.parent, x, c.groupNext, if c.head != NIL then c.head
        else x, c.count)
      else View(h.live, c.parent, NIL, c.groupNext, NIL, 0)
  }

  /** The root getter and the live-count getter on any headers at all. A stored count of zero makes the
      count fall back to the state of the object asked about. */
  function RootOf(hs: seq<Hdr>, x: Addr): Addr
    requires x < |hs|
  {
    if hs[x].cold.Some? && hs[x].cold.value.groupRoot != NIL then hs[x].cold.value.groupRoot else x
  }

  function CountOf(hs: seq<Hdr>, x: Addr): nat
    requires x < |hs| && RootOf(hs, x) < |hs|
  {
    var root := RootOf(hs, x);
    if hs[root].cold.Some? && hs[root].cold.value.count != 0 then hs[root].cold.value.count
    else if hs[x].live then 1 else 0
  }

  /** A member that is still live under a stored count of zero is counted as one. */
  lemma {:induction false} StaleZeroIsMisread()
    ensures var hs := [Hdr(false, false, None), Hdr(false, true, Some(Cold(NIL, NIL, NIL, 1, 0, true))),
                       Hdr(true, false, Some(Cold(1, 1, NIL, NIL, 0, false)))];
            RootOf(hs, 2) == 1 && hs[1].cold.value.count == 0 && CountOf(hs, 2) == 1 && !ValidHeaders(hs)
  {
    var hs := [Hdr(false, false, None), Hdr(false, true, Some(Cold(NIL, NIL, NIL, 1, 0, true))),
               Hdr(true, false, Some(Cold(1, 1, NIL, NIL, 0, false)))];
    assert AbsOf(hs)[2] == ViewOf(hs[2], 2) && AbsOf(hs)[1] == ViewOf(hs[1], 1);
  }

  function AbsOf(hs: seq<Hdr>): (v: Views)
    ensures |v| == |hs| && forall x :: 0 <= x < |hs| ==> v[x] == ViewOf(hs[x], x)
  {
    seq(|hs|, x requires 0 <= x < |hs| => ViewOf(hs[x], x))
  }

  ghost predicate GoodHeader(h: Hdr, x: Addr) {
    && (h.live && ViewOf(h, x).root != x ==> !h.groupDead)
    && (h.cold.Some? ==>
          var c := h.cold.value;
          && c.groupRoot != x
          && (c.groupRoot != NIL ==> c.head == NIL && c.count == 0)
          && (c.head == NIL && c.count == 0 ==> !c.dead)
          && (c.head != NIL || c.count != 0 ==>
            c.head != NIL && (c.dead <==> c.count == 0) && (h.groupDead <==> c.dead)))
  }

  ghost predicate ValidHeaders(hs: seq<Hdr>) {
    Good(AbsOf(hs)) && forall x :: 0 <= x < |hs| ==> GoodHeader(hs[x], x)
  }

  /** Writing one header changes one view. */
  lemma Update(hs: seq<Hdr>, x: Addr, h: Hdr)
    requires ValidHeaders(hs) && x < |hs| && GoodHeader(h, x) && Good(AbsOf(hs)[x := ViewOf(h, x)])
    ensures AbsOf(hs[x := h]) == AbsOf(hs)[x := ViewOf(h, x)]
    ensures ValidHeaders(hs[x := h])
  {
    assert AbsOf(hs[x := h]) == AbsOf(hs)[x := ViewOf(h, x)];
  }

  class Headers {
    var hdrs: seq<Hdr>

    ghost function Abs(): Views
      reads this
    {
      AbsOf(hdrs)
    }

    ghost predicate Valid()
      reads this
    {
      ValidHeaders(hdrs)
    }

    constructor (n: nat)
      requires n > 0
      ensures Valid() && Abs() == seq(n, _ => View(false, NIL, NIL, NIL, NIL, 0))
    {
      hdrs := seq(n, _ => Hdr(false, false, None));
    }

    function GroupRoot(x: Addr): (r: Addr)
      requires Valid() && x < |hdrs|
      reads this
      ensures r == Root(Abs(), x)
    {
      assert GoodHeader(hdrs[x], x);
      RootOf(hdrs, x)
    }

    function GroupNext(x: Addr): (r: Addr)
      requires Valid() && x < |hdrs|
      reads this
      ensures r == Abs()[x].next
    {
      if hdrs[x].cold.Some? then hdrs[x].cold.value.groupNext else NIL
    }

    function GroupHead(x: Addr): (r: Addr)
      requires Valid() && Settled(Abs(), x)
      reads this
      ensures r == Head(Abs(), x)
    {
      var root := GroupRoot(x);
      assert GoodHeader(hdrs[root], root);
      if hdrs[root].cold.Some? && hdrs[root].cold.value.head != NIL then hdrs[root].cold.value.head else root
    }

    /** Whatever the headers hold, the answer for any object is its root's stored count if and only if that
        is not zero or the object itself is dead. In a valid state it always is the group's count. */
    function LiveCount(x: Addr): (r: nat)
      requires x < |hdrs| && RootOf(hdrs, x) < |hdrs|
      reads this
      ensures var root := hdrs[RootOf(hdrs, x)];
              root.cold.Some? ==> (r == root.cold.value.count <==> root.cold.value.count != 0 || !hdrs[x].live)
      ensures Valid() && Settled(Abs(), x) ==> r == Count(Abs(), x)
    {
      assert Valid() && Settled(Abs(), x) ==>
        GoodHeader(hdrs[x], x) && GoodHeader(hdrs[RootOf(hdrs, x)], RootOf(hdrs, x));
      CountOf(hdrs, x)
    }

    function Parent(x: Addr): (r: Addr)
      requires Valid() && x < |hdrs|
      reads this
      ensures r == Abs()[x].parent
    {
      if hdrs[x].cold.Some? then hdrs[x].cold.value.parent else NIL
    }

    predicate Grouped(x: Addr)
      requires Valid() && x < |hdrs| && x != NIL
      reads this
      ensures Grouped(x) <==> Abs()[x].root != NIL
    {
      && hdrs[x].cold.Some?
      && (hdrs[x].cold.value.groupRoot != NIL || hdrs[x].cold.value.count != 0 || hdrs[x].cold.value.head != NIL)
    }

    predicate GroupDead(x: Addr)
      requires Valid() && Settled(Abs(), x) && (Abs()[x].root != NIL || Abs()[x].live)
      reads this
      ensures GroupDead(x) <==> Abs()[x].root != NIL && Count(Abs(), x) == 0
    {
      var root := GroupRoot(x);
      assert GoodHeader(hdrs[root], root);
      hdrs[root].groupDead || (hdrs[root].cold.Some? && hdrs[root].cold.value.dead)
    }

    /** sf_init_allocated_header, as far as the group answers go. */
    method Fresh(x: Addr)
      requires Valid() && 0 < x < |hdrs| && !IsRoot(Abs(), x)
      modifies this
      ensures Valid() && Abs() == GroupView.Fresh(old(Abs()), x) && hdrs[x].cold.None?
    {
      var hdr := Hdr(true, false, None);
      FreshGood(Abs(), x);
      Update(hdrs, x, hdr);
      hdrs := hdrs[x := hdr];
    }

    /** sf_header_ensure_cold_state. */
    method EnsureCold(x: Addr, room: bool) returns (ok: bool)
      requires Valid() && 0 < x < |hdrs|
      modifies this
      ensures Valid() && Abs() == old(Abs()) && ok == (old(hdrs)[x].cold.Some? || room) == hdrs[x].cold.Some?
    {
      if hdrs[x].cold.Some? {
        return true;
      }
      if !room {
        return false;
      }
      assert GoodHeader(hdrs[x], x);
      var h := hdrs[x].(cold := Some(Cold(NIL, NIL, NIL, NIL, 0, false)));
      assert Abs()[x := ViewOf(h, x)] == Abs();
      Update(hdrs, x, h);
      hdrs := hdrs[x := h];
      return true;
    }

    method InitRoot(x: Addr, room: bool) returns (ok: bool)
      requires Valid() && 0 < x < |hdrs| && Root(Abs(), x) == x && (Abs()[x].root == NIL ==> Abs()[x].parent == NIL)
      modifies this
      ensures Valid() && (room ==> ok)
      ensures !room ==> (ok <==> old(hdrs)[x].cold.Some?)
      ensures Abs() == if ok then Init(old(Abs()), x) else old(Abs())
    {
      ok := EnsureCold(x, room);
      if !ok {
        return false;
      }
      assert GoodHeader(hdrs[x], x);
      var cold := hdrs[x].cold.value;
      if cold.count != 0 || cold.head != NIL {
        return true;
      }
      var hdr := hdrs[x].(cold := Some(cold.(head := x, count := 1, dead := false, groupNext := NIL)),
        groupDead := false);
      InitGood(Abs(), x);
      Update(hdrs, x, hdr);
      hdrs := hdrs[x := hdr];
    }

    method SetParent(x: Addr, p: Addr, room: bool) returns (ok: bool)
      requires Valid() && 0 < x < |hdrs| && !IsRoot(Abs(), x)
      modifies this
      ensures Valid() && (room || p == NIL ==> ok)
      ensures p != NIL && !room ==> (ok <==> old(hdrs)[x].cold.Some?)
      ensures Abs() == if ok then GroupView.SetParent(old(Abs()), x, p) else old(Abs())
    {
      if p == NIL && hdrs[x].cold.None? {
        assert Abs() == GroupView.SetParent(Abs(), x, p);
        return true;
      }
      ok := EnsureCold(x, room);
      if !ok {
        return false;
      }
      assert GoodHeader(hdrs[x], x);
      var h := hdrs[x].(cold := Some(hdrs[x].cold.value.(parent := p)));
      assert GoodHeader(h, x) && ViewOf(h, x) == ViewOf(hdrs[x], x).(parent := p);
      SetParentGood(Abs(), x, p);
      Update(hdrs, x, h);
      hdrs := hdrs[x := h];
    }

    method SetGroupRoot(x: Addr, r: Addr) returns (ok: bool)
      requires Valid() && 0 < x < |hdrs| && x != r && IsRoot(Abs(), r) && Abs()[r].count > 0
      requires Abs()[x].root == NIL && Abs()[x].parent != NIL
      modifies this
      ensures Valid() && ok && Abs() == Join(old(Abs()), x, r)
    {
      var rooted := InitRoot(r, true);
      ok := EnsureCold(x, false);
      assert GoodHeader(hdrs[x], x);
      var hdr := hdrs[x].(cold := Some(hdrs[x].cold.value.(groupRoot := r)));
      JoinGood(Abs(), x, r);
      Update(hdrs, x, hdr);
      hdrs := hdrs[x := hdr];
    }

    method SetGroupNext(x: Addr, n: Addr) returns (ok: bool)
      requires Valid() && 0 < x < |hdrs| && Abs()[x].root != NIL
      modifies this
      ensures Valid() && ok && Abs() == SetNext(old(Abs()), x, n)
    {
      ok := EnsureCold(x, false);
      assert GoodHeader(hdrs[x], x);
      var hdr := hdrs[x].(cold := Some(hdrs[x].cold.value.(groupNext := n)));
      SetNextGood(Abs(), x, n);
      Update(hdrs, x, hdr);
      hdrs := hdrs[x := hdr];
    }

    method SetGroupHead(r: Addr, h: Addr) returns (ok: bool)
      requires Valid() && IsRoot(Abs(), r) && h != NIL
      modifies this
      ensures Valid() && ok && Abs() == SetHead(old(Abs()), r, h)
    {
      assert GoodHeader(hdrs[r], r);
      var hdr := hdrs[r].(cold := Some(hdrs[r].cold.value.(head := h)));
      SetHeadGood(Abs(), r, h);
      Update(hdrs, r, hdr);
      hdrs := hdrs[r := hdr];
      return true;
    }

    method SetLiveCount(r: Addr, c: nat) returns (ok: bool)
      requires Valid() && IsRoot(Abs(), r) && c < UINT32 && (c == 0 ==> AllDead(Abs(), r))
      modifies this
      ensures Valid() && ok && Abs() == SetCount(old(Abs()), r, c)
    {
      assert GoodHeader(hdrs[r], r);
      var cold := hdrs[r].cold.value.(count := c, dead := c == 0);
      if c <= 1 {
        cold := cold.(head := if c != 0 && cold.head == NIL then r else cold.head);
      } else {
        var rooted := InitRoot(r, true);
      }
      var hdr := hdrs[r].(cold := Some(cold), groupDead := c == 0);
      SetCountGood(Abs(), r, c);
      Update(hdrs, r, hdr);
      hdrs := hdrs[r := hdr];
      return true;
    }

    method Die(x: Addr)
      requires Valid() && 0 < x < |hdrs| && (IsRoot(Abs(), x) ==> Abs()[x].count > 0)
      modifies this
      ensures Valid() && Abs() == Kill(old(Abs()), x)
    {
      assert GoodHeader(hdrs[x], x);
      var hdr := hdrs[x].(live := false, groupDead := false);
      KillGood(Abs(), x);
      Update(hdrs, x, hdr);
      hdrs := hdrs[x := hdr];
    }

    method DestroyMember(x: Addr)
      requires Valid() && 0 < x < |hdrs| && !IsRoot(Abs(), x)
      modifies this
      ensures Valid() && Abs() == Reset(old(Abs()), x)
    {
      assert GoodHeader(hdrs[x], x);
      var hdr := hdrs[x].(cold := None);
      ResetGood(Abs(), x);
      Update(hdrs, x, hdr);
      hdrs := hdrs[x := hdr];
    }

    method TearDown(r: Addr) returns (head: Addr)
      requires Valid() && IsRoot(Abs(), r) && Abs()[r].count == 0
      modifies this
      ensures Valid() && head == Head(old(Abs()), r) && Abs() == Reset(old(Abs()), r)
    {
      assert GoodHeader(hdrs[r], r);
      head := GroupHead(r);
      var hdr := hdrs[r].(cold := None);
      ResetGood(Abs(), r);
      Update(hdrs, r, hdr);
      hdrs := hdrs[r := hdr];
    }
  }
}

/** The default layout: an ordinary root's own `parent` field holds the chain head, its `reserved`
    field the live count, and `group` is the root's address with the low bit set. */
module DefaultHeaders {
  import opened GroupView

  /** A `group` field: a null pointer or a tagged root address. */
  datatype Tag = Null | Tagged(root: Addr)

  datatype Hdr = Hdr(live: bool, parent: Addr, group: Tag, groupNext: Addr, reserved: nat, groupDead: bool)

  /** sf_header_uses_inline_group_state with sf_header_inline_group_root equal to the header itself. */
  predicate SelfTagged(h: Hdr, x: Addr) {
    h.group == Tagged(x)
  }

  function ViewOf(h: Hdr, x: Addr): View {
    if SelfTagged(h, x) then View(h.live, NIL, x, h.groupNext, if h.parent != NIL then h.parent else x, h.reserved)
    else View(h.live, h.parent, if h.group.Tagged? then h.group.root else NIL, h.groupNext, NIL, 0)
  }

  function AbsOf(hs: seq<Hdr>): (v: Views)
    ensures |v| == |hs| && forall x :: 0 <= x < |hs| ==> v[x] == ViewOf(hs[x], x)
  {
    seq(|hs|, x requires 0 <= x < |hs| => ViewOf(hs[x], x))
  }

  /** The group-dead flag is set exactly on a root whose count is zero. */
  ghost predicate GoodHeader(h: Hdr, x: Addr) {
    && (h.group.Tagged? ==> h.group.root != NIL)
    && (h.groupDead <==> SelfTagged(h, x) && h.reserved == 0)
  }

  ghost predicate ValidHeaders(hs: seq<Hdr>) {
    Good(AbsOf(hs)) && forall x :: 0 <= x < |hs| ==> GoodHeader(hs[x], x)
  }

  /** Writing one header changes one view. */
  lemma Update(hs: seq<Hdr>, x: Addr, h: Hdr)
    requires ValidHeaders(hs) && x < |hs| && GoodHeader(h, x) && Good(AbsOf(hs)[x := ViewOf(h, x)])
    ensures AbsOf(hs[x := h]) == AbsOf(hs)[x := ViewOf(h, x)]
    ensures ValidHeaders(hs[x := h])
  {
    assert AbsOf(hs[x := h]) == AbsOf(hs)[x := ViewOf(h, x)];
  }

  class Headers {
    var hdrs: seq<Hdr>

    ghost function Abs(): Views
      reads this
    {
      AbsOf(hdrs)
    }

    ghost predicate Valid()
      reads this
    {
      ValidHeaders(hdrs)
    }

    constructor (n: nat)
      requires n > 0
      ensures Valid() && Abs() == seq(n, _ => View(false, NIL, NIL, NIL, NIL, 0))
    {
      hdrs := seq(n, _ => Hdr(false, NIL, Null, NIL, 0, false));
    }

    function GroupRoot(x: Addr): (r: Addr)
      requires Valid() && x < |hdrs|
      reads this
      ensures r == Root(Abs(), x)
    {
      if hdrs[x].group.Tagged? then hdrs[x].group.root else x
    }

    function GroupNext(x: Addr): (r: Addr)
      requires Valid() && x < |hdrs|
      reads this
      ensures r == Abs()[x].next
    {
      hdrs[x].groupNext
    }

    function GroupHead(x: Addr): (r: Addr)
      requires Valid() && Settled(Abs(), x)
      reads this
      ensures r == Head(Abs(), x)
    {
      var root := GroupRoot(x);
      if hdrs[root].group.Tagged? then
        if hdrs[root].parent != NIL then hdrs[root].parent else root
      else x
    }

    function LiveCount(x: Addr): (r: nat)
      requires Valid() && Settled(Abs(), x)
      reads this
      ensures r == Count(Abs(), x)
    {
      var root := GroupRoot(x);
      if hdrs[root].group.Tagged? then hdrs[root].reserved
      else if hdrs[x].live then 1 else 0
    }

    function Parent(x: Addr): (r: Addr)
      requires Valid() && x < |hdrs|
      reads this
      ensures r == Abs()[x].parent
    {
      if SelfTagged(hdrs[x], x) then NIL else hdrs[x].parent
    }

    predicate Grouped(x: Addr)
      requires Valid() && x < |hdrs|
      reads this
      ensures Grouped(x) <==> Abs()[x].root != NIL
    {
      hdrs[x].group.Tagged?
    }

    predicate GroupDead(x: Addr)
      requires Valid() && Settled(Abs(), x) && (Abs()[x].root != NIL || Abs()[x].live)
      reads this
      ensures GroupDead(x) <==> Abs()[x].root != NIL && Count(Abs(), x) == 0
    {
      hdrs[GroupRoot(x)].groupDead
    }

    /** sf_init_allocated_header, as far as the group answers go. */
    method Fresh(x: Addr)
      requires Valid() && 0 < x < |hdrs| && !IsRoot(Abs(), x)
      modifies this
      ensures Valid() && Abs() == GroupView.Fresh(old(Abs()), x)
    {
      var hdr := Hdr(true, NIL, Null, NIL, 0, false);
      FreshGood(Abs(), x);
      Update(hdrs, x, hdr);
      hdrs := hdrs[x := hdr];
    }

    method InitRoot(x: Addr, room: bool) returns (ok: bool)
      requires Valid() && 0 < x < |hdrs| && Root(Abs(), x) == x && (Abs()[x].root == NIL ==> Abs()[x].parent == NIL)
      modifies this
      ensures Valid() && ok && Abs() == Init(old(Abs()), x)
    {
      if hdrs[x].group.Tagged? {
        return true;
      }
      var hdr := hdrs[x].(group := Tagged(x), parent := x, groupNext := NIL, reserved := 1, groupDead := false);
      InitGood(Abs(), x);
      Update(hdrs, x, hdr);
      hdrs := hdrs[x := hdr];
      return true;
    }

    method SetParent(x: Addr, p: Addr, room: bool) returns (ok: bool)
      requires Valid() && 0 < x < |hdrs| && !IsRoot(Abs(), x)
      modifies this
      ensures Valid() && ok && Abs() == GroupView.SetParent(old(Abs()), x, p)
    {
      if SelfTagged(hdrs[x], x) {
        return p == NIL;
      }
      var hdr := hdrs[x].(parent := p);
      SetParentGood(Abs(), x, p);
      Update(hdrs, x, hdr);
      hdrs := hdrs[x := hdr];
      return true;
    }

    method SetGroupRoot(x: Addr, r: Addr) returns (ok: bool)
      requires Valid() && 0 < x < |hdrs| && x != r && IsRoot(Abs(), r) && Abs()[r].count > 0
      requires Abs()[x].root == NIL && Abs()[x].parent != NIL
      modifies this
      ensures Valid() && ok && Abs() == Join(old(Abs()), x, r)
    {
      var rooted := InitRoot(r, true);
      var hdr := hdrs[x].(group := Tagged(r));
      JoinGood(Abs(), x, r);
      Update(hdrs, x, hdr);
      hdrs := hdrs[x := hdr];
      return true;
    }

    method SetGroupNext(x: Addr, n: Addr) returns (ok: bool)
      requires Valid() && 0 < x < |hdrs| && Abs()[x].root != NIL
      modifies this
      ensures Valid() && ok && Abs() == SetNext(old(Abs()), x, n)
    {
      var hdr := hdrs[x].(groupNext := n);
      SetNextGood(Abs(), x, n);
      Update(hdrs, x, hdr);
      hdrs := hdrs[x := hdr];
      return true;
    }

    method SetGroupHead(r: Addr, h: Addr) returns (ok: bool)
      requires Valid() && IsRoot(Abs(), r) && h != NIL
      modifies this
      ensures Valid() && ok && Abs() == SetHead(old(Abs()), r, h)
    {
      var hdr := hdrs[r].(parent := h);
      SetHeadGood(Abs(), r, h);
      Update(hdrs, r, hdr);
      hdrs := hdrs[r := hdr];
      return true;
    }

    method SetLiveCount(r: Addr, c: nat) returns (ok: bool)
      requires Valid() && IsRoot(Abs(), r) && c < UINT32 && (c == 0 ==> AllDead(Abs(), r))
      modifies this
      ensures Valid() && ok && Abs() == SetCount(old(Abs()), r, c)
    {
      var h := hdrs[r].(reserved := c % UINT32);
      if c == 0 {
        h := h.(groupDead := true);
      } else {
        h := h.(groupDead := false, parent := if h.parent == NIL then r else h.parent);
      }
      SetCountGood(Abs(), r, c);
      Update(hdrs, r, h);
      hdrs := hdrs[r := h];
      return true;
    }

    /** The header's part of a death: the state changes and the auxiliary flags, group-dead among them,
        are cleared. The count setter that follows restores the flag when it is due. */
    method Die(x: Addr)
      requires Valid() && 0 < x < |hdrs| && (IsRoot(Abs(), x) ==> Abs()[x].count > 0)
      modifies this
      ensures Valid() && Abs() == Kill(old(Abs()), x)
    {
      var hdr := hdrs[x].(live := false, groupDead := false);
      KillGood(Abs(), x);
      Update(hdrs, x, hdr);
      hdrs := hdrs[x := hdr];
    }

    /** sf_header_destroy_sidecar on a member. */
    method DestroyMember(x: Addr)
      requires Valid() && 0 < x < |hdrs| && !IsRoot(Abs(), x)
      modifies this
      ensures Valid() && Abs() == Reset(old(Abs()), x)
    {
      var hdr := hdrs[x].(group := Null, parent := NIL, groupNext := NIL);
      ResetGood(Abs(), x);
      Update(hdrs, x, hdr);
      hdrs := hdrs[x := hdr];
    }

    /** The end of a group: its head is taken and cleared, and the root's bookkeeping destroyed. */
    method TearDown(r: Addr) returns (head: Addr)
      requires Valid() && IsRoot(Abs(), r) && Abs()[r].count == 0
      modifies this
      ensures Valid() && head == Head(old(Abs()), r) && Abs() == Reset(old(Abs()), r)
    {
      head := GroupHead(r);
      var hdr := hdrs[r].(group := Null, groupNext := NIL, parent := NIL, reserved := 0, groupDead := false);
      ResetGood(Abs(), r);
      Update(hdrs, r, hdr);
      hdrs := hdrs[r := hdr];
    }
  }
}

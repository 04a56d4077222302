/** What the group getters answer, independent of where the answers are stored. The runtime is built
    with one of three layouts; `DefaultHeaders`, `CompactHeaders` and `InlineHeaders` each implement
    the operations below. */
module GroupView {

  type Addr = nat

  const NIL: Addr := 0
  const UINT32: nat := 0x1_0000_0000

  /** `root` is nil outside a group. `head` and `count` mean something in a root only, and a root
      allocated outside any group has no parent. */
  datatype View = View(live: bool, parent: Addr, root: Addr, next: Addr, head: Addr, count: nat)

  type Views = seq<View>

  function Root(v: Views, x: Addr): Addr
    requires x < |v|
  {
    if v[x].root == NIL then x else v[x].root
  }

  function Head(v: Views, x: Addr): Addr
    requires x < |v| && Root(v, x) < |v|
  {
    if v[x].root == NIL then x else v[v[x].root].head
  }

  function Count(v: Views, x: Addr): nat
    requires x < |v| && Root(v, x) < |v|
  {
    if v[x].root == NIL then (if v[x].live then 1 else 0) else v[v[x].root].count
  }

  predicate IsRoot(v: Views, r: Addr) {
    NIL < r < |v| && v[r].root == r
  }

  /** Between operations: a root has a head, everything else has neither head nor count, and a live
      object in a group has an existing root whose count is not zero. */
  ghost predicate Good(v: Views) {
    && |v| > 0 && v[NIL] == View(false, NIL, NIL, NIL, NIL, 0)
    && forall x :: 0 <= x < |v| ==>
         if v[x].root == x && x != NIL then
           v[x].parent == NIL && v[x].head != NIL && v[x].count < UINT32 && (v[x].live ==> v[x].count > 0)
         else
           v[x].head == NIL && v[x].count == 0
           && (v[x].live && v[x].root != NIL ==> IsRoot(v, v[x].root) && v[v[x].root].count > 0)
  }

  /** `x` is outside any group or in one that has not been torn down. */
  predicate Settled(v: Views, x: Addr) {
    x < |v| && (v[x].root == NIL || IsRoot(v, v[x].root))
  }

  /** Count zero may be stored only once the whole group is dead. */
  predicate AllDead(v: Views, r: Addr) {
    forall x :: 0 <= x < |v| && v[x].root == r ==> !v[x].live
  }

  function Init(v: Views, r: Addr): Views
    requires r < |v|
  {
    if v[r].root != NIL then v
    else v[r := v[r].(root := r, next := NIL, head := r, count := 1)]
  }

  function SetParent(v: Views, x: Addr, p: Addr): Views
    requires x < |v|
  {
    v[x := v[x].(parent := p)]
  }

  function Join(v: Views, x: Addr, r: Addr): Views
    requires x < |v|
  {
    v[x := v[x].(root := r)]
  }

  function SetNext(v: Views, x: Addr, n: Addr): Views
    requires x < |v|
  {
    v[x := v[x].(next := n)]
  }

  function SetHead(v: Views, r: Addr, h: Addr): Views
    requires r < |v|
  {
    v[r := v[r].(head := h)]
  }

  function SetCount(v: Views, r: Addr, c: nat): Views
    requires r < |v|
  {
    v[r := v[r].(count := c)]
  }

  function Kill(v: Views, x: Addr): Views
    requires x < |v|
  {
    v[x := v[x].(live := false)]
  }

  function Reset(v: Views, x: Addr): Views
    requires x < |v|
  {
    v[x := View(v[x].live, NIL, NIL, NIL, NIL, 0)]
  }

  function Fresh(v: Views, x: Addr): Views
    requires x < |v|
  {
    v[x := View(true, NIL, NIL, NIL, NIL, 0)]
  }

  /** The five setters a child allocation calls, in order. */
  function Link(v: Views, x: Addr, p: Addr, r: Addr): Views
    requires x < |v| && r < |v| && Root(v, r) == r
  {
    var v1 := Join(SetParent(v, x, p), x, r);
    var v2 := SetNext(v1, x, v1[r].head);
    var v3 := SetHead(v2, r, x);
    SetCount(v3, r, v3[r].count + 1)
  }

  // ---------------------------------------------------------------- each operation keeps `Good`

  lemma FreshGood(v: Views, x: Addr)
    requires Good(v) && 0 < x < |v| && !IsRoot(v, x)
    ensures Good(Fresh(v, x))
  {
  }

  lemma InitGood(v: Views, r: Addr)
    requires Good(v) && 0 < r < |v| && Root(v, r) == r && (v[r].root == NIL ==> v[r].parent == NIL)
    ensures Good(Init(v, r))
  {
  }

  lemma SetParentGood(v: Views, x: Addr, p: Addr)
    requires Good(v) && 0 < x < |v| && !IsRoot(v, x)
    ensures Good(SetParent(v, x, p))
  {
  }

  lemma JoinGood(v: Views, x: Addr, r: Addr)
    requires Good(v) && 0 < x < |v| && x != r && IsRoot(v, r) && v[r].count > 0 && v[x].root == NIL
    ensures Good(Join(v, x, r))
  {
  }

  lemma SetNextGood(v: Views, x: Addr, n: Addr)
    requires Good(v) && 0 < x < |v|
    ensures Good(SetNext(v, x, n))
  {
  }

  lemma SetHeadGood(v: Views, r: Addr, h: Addr)
    requires Good(v) && IsRoot(v, r) && h != NIL
    ensures Good(SetHead(v, r, h))
  {
  }

  lemma SetCountGood(v: Views, r: Addr, c: nat)
    requires Good(v) && IsRoot(v, r) && c < UINT32 && (c == 0 ==> AllDead(v, r))
    ensures Good(SetCount(v, r, c))
  {
  }

  lemma KillGood(v: Views, x: Addr)
    requires Good(v) && 0 < x < |v|
    ensures Good(Kill(v, x))
  {
  }

  lemma ResetGood(v: Views, x: Addr)
    requires Good(v) && 0 < x < |v| && (IsRoot(v, x) ==> v[x].count == 0)
    ensures Good(Reset(v, x))
  {
  }
}

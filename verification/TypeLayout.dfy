/** The dispatcher's layout reader: size and alignment of an encoded C type, in 64-bit sizes that wrap. */
module TypeLayout {

  import opened Wrappers
  import opened EncodingSyntax
  import opened EncodingParser
  import opened EncodingLanguage
  import opened EncodingLoops
  import opened TokenSkipper

  const WORD: nat := 8

  datatype Layout = Layout(size: nat, align: nat, fp: bool, unsupported: bool, end: nat)

  predicate IsAlign(a: nat) {
    a == 1 || a == 2 || a == 4 || a == 8
  }

  /** align_up_size: add the mask, wrap, and clear the low bits. */
  function AlignUp(v: nat, a: nat): (r: nat)
    requires IsAlign(a) && v < UINT64
    ensures r < UINT64 && r % a == 0
  {
    if a <= 1 then v else (var w := (v + (a - 1)) % UINT64; w - w % a)
  }

  /** Size, alignment and floating-point flag of the codes that stand for themselves. */
  function SimpleLayout(c: char): Option<(nat, nat, bool)> {
    match c
    case 'v' => Some((0, 1, false))
    case 'c' => Some((1, 1, false))
    case 'C' => Some((1, 1, false))
    case 'B' => Some((1, 1, false))
    case 's' => Some((2, 2, false))
    case 'S' => Some((2, 2, false))
    case 'i' => Some((4, 4, false))
    case 'I' => Some((4, 4, false))
    case 'f' => Some((4, 4, true))
    case 'l' => Some((8, 8, false))
    case 'L' => Some((8, 8, false))
    case 'q' => Some((8, 8, false))
    case 'Q' => Some((8, 8, false))
    case 'd' => Some((8, 8, true))
    case 'D' => Some((8, 8, true))
    case '*' => Some((8, 8, false))
    case ':' => Some((8, 8, false))
    case '#' => Some((8, 8, false))
    case _ => None
  }

  function Max(a: nat, b: nat): nat {
    if a < b then b else a
  }

  /** Whatever the text, the reader stops, makes progress, and answers an alignment that divides the
      size. */
  predicate Sound(s: string, p: nat, l: Layout) {
    p <= l.end <= |s| && (Char(s, p) != '\0' ==> p < l.end) && IsAlign(l.align) && l.size < UINT64
      && l.size % l.align == 0
  }

  function Read(s: string, p: nat): (l: Layout)
    requires p <= |s|
    ensures Sound(s, p, l)
    decreases |s| - p, 1
  {
    var q := RunEnd(s, p, IsCommonQualifier);
    var c := Char(s, q);
    if c == '\0' then Layout(0, 1, false, false, q)
    else if SimpleLayout(c).Some? then
      var (size, align, fp) := SimpleLayout(c).value;
      Layout(size, align, fp, false, q + 1)
    else if c == '@' then Layout(WORD, WORD, false, false, if Char(s, q + 1) == '?' then q + 2 else q + 1)
    else if c == '^' then Layout(WORD, WORD, false, false, SkipEnd(s, q + 1))
    else if c == '[' then ReadArray(s, q + 1)
    else if c == '{' || c == '(' then ReadAggregate(s, q + 1, c == '(')
    else Layout(WORD, WORD, false, true, SkipEnd(s, q))
  }

  function ReadArray(s: string, p: nat): (l: Layout)
    requires p <= |s|
    ensures p <= l.end <= |s| && IsAlign(l.align) && l.size < UINT64 && l.size % l.align == 0
    decreases |s| - p, 2
  {
    var k := RunEnd(s, p, IsDigit);
    var elem := Read(s, k);
    var size := Decimal(s[p..k]) % UINT64 * elem.size % UINT64;
    ProductDivides(Decimal(s[p..k]) % UINT64, elem.size, elem.align);
    if Char(s, elem.end) == ']' then Layout(size, elem.align, elem.fp, elem.unsupported, elem.end + 1)
    else Layout(size, elem.align, elem.fp, true, elem.end)
  }

  /** Name, members and padding of a struct, or of a union. */
  function ReadAggregate(s: string, p: nat, union: bool): (l: Layout)
    requires p <= |s|
    ensures p <= l.end <= |s| && IsAlign(l.align) && l.size < UINT64 && l.size % l.align == 0
    decreases |s| - p, 2
  {
    var close := if union then ')' else '}';
    var n := RunEnd(s, p, NameChar(close));
    if Char(s, n) == close then Layout(0, 1, false, true, n + 1)
    else if Char(s, n) != '=' then Layout(0, 1, false, true, n)
    else
      var m := ReadMembers(s, n + 1, union, Layout(0, 1, false, false, n + 1));
      var size := AlignUp(m.size, m.align);
      if Char(s, m.end) == close then Layout(size, m.align, m.fp, m.unsupported, m.end + 1)
      else Layout(size, m.align, m.fp, true, m.end)
  }

  /** One more member: in a struct at the next multiple of its alignment, in a union at the start. */
  function AddMember(l: Layout, field: Layout, union: bool): (r: Layout)
    requires IsAlign(l.align) && IsAlign(field.align) && l.size < UINT64 && field.size < UINT64
    ensures IsAlign(r.align) && r.size < UINT64 && r.end == field.end
  {
    Layout(if union then Max(l.size, field.size) else (AlignUp(l.size, field.align) + field.size) % UINT64,
           Max(l.align, field.align), l.fp || field.fp, l.unsupported || field.unsupported, field.end)
  }

  function ReadMembers(s: string, p: nat, union: bool, l: Layout): (r: Layout)
    requires p <= |s| && IsAlign(l.align) && l.size < UINT64 && l.end == p
    ensures p <= r.end <= |s| && IsAlign(r.align) && r.size < UINT64
    decreases |s| - p, 3
  {
    if Char(s, p) == '\0' || Char(s, p) == (if union then ')' else '}') then l
    else
      var field := Read(s, p);
      ReadMembers(s, field.end, union, AddMember(l, field, union))
  }

  /** No text takes no room, and a code that is none of the known ones is taken for a word and not supported. */
  lemma {:induction false} OtherTexts(s: string, p: nat)
    requires p <= |s| && Char(s, p) !in "vcCBsSiIlLqQfdD*:#@^[{(" && !IsCommonQualifier(Char(s, p))
    ensures var l := Read(s, p);
            if Char(s, p) == '\0' then l == Layout(0, 1, false, false, p)
            else l.size == 8 && l.align == 8 && !l.fp && l.unsupported
  {
    KnownLetters(Char(s, p));
  }

  lemma KnownLetters(c: char)
    requires c !in "vcCBsSiIlLqQfdD*:#@^[{("
    ensures SimpleLayout(c).None? && c != '@' && c != '^' && c != '[' && c != '{' && c != '('
  {
    var known := "vcCBsSiIlLqQfdD*:#@^[{(";
    assert known[0] == 'v' && known[1] == 'c' && known[2] == 'C' && known[3] == 'B' && known[4] == 's';
    assert known[5] == 'S' && known[6] == 'i' && known[7] == 'I' && known[8] == 'l' && known[9] == 'L';
    assert known[10] == 'q';
    assert known[11] == 'Q' && known[12] == 'f' && known[13] == 'd' && known[14] == 'D' && known[15] == '*';
    assert known[16] == ':' && known[17] == '#' && known[18] == '@' && known[19] == '^' && known[20] == '[';
    assert known[21] == '{' && known[22] == '(';
  }

  /** A struct or union without members is opaque: it has no size and is not supported. */
  lemma {:induction false} OpaqueIs(open: char, name: string)
    requires (open == '{' || open == '(') && AllOf(name, NameChar(Close(open)))
    ensures Read([open] + (name + [Close(open)]), 0) == Layout(0, 1, false, true, |name| + 2)
  {
    var w := [open] + (name + [Close(open)]);
    assert w[0] == open && w[|name| + 1] == Close(open) && w[1..1 + |name|] == name;
    RunIs(w, 1, name, NameChar(Close(open)));
  }

  /** What the reader supports is closed by the bracket it was opened with. */
  lemma {:induction false} SupportedIsClosed(s: string, p: nat)
    requires p <= |s| && !Read(s, p).unsupported
    ensures var (open, end) := (Char(s, RunEnd(s, p, IsCommonQualifier)), Read(s, p).end);
            && (open == '[' ==> end > 0 && Char(s, end - 1) == ']')
            && (open == '{' ==> end > 0 && Char(s, end - 1) == '}')
            && (open == '(' ==> end > 0 && Char(s, end - 1) == ')')
  {
  }

  lemma ProductDivides(n: nat, size: nat, a: nat)
    requires IsAlign(a) && size % a == 0
    ensures n * size % UINT64 % a == 0
  {
    var k := size / a;
    assert size == k * a;
    MulAssoc(n, k, a);
    WrapDivides(n * k, a);
  }

  /** The word size is a multiple of every alignment, so wrapping keeps multiples. */
  lemma WrapDivides(m: nat, a: nat)
    requires IsAlign(a)
    ensures m * a % UINT64 % a == 0
  {
    if a == 1 { WrapDivides1(m); } else if a == 2 { WrapDivides2(m); } else if a == 4 { WrapDivides4(m); }
      else { WrapDivides8(m); }
  }

  lemma WrapDivides1(m: nat)
    ensures m * 1 % UINT64 % 1 == 0
  {
  }

  lemma WrapDivides2(m: nat)
    ensures m * 2 % UINT64 % 2 == 0
  {
  }

  lemma WrapDivides4(m: nat)
    ensures m * 4 % UINT64 % 4 == 0
  {
  }

  lemma WrapDivides8(m: nat)
    ensures m * 8 % UINT64 % 8 == 0
  {
  }

  lemma MulAssoc(n: int, k: int, a: int)
    ensures n * (k * a) == n * k * a
  {
  }

  // ---------------------------------------------------------------- the loops

  /** parse_type_layout. */
  method ParseTypeLayout(s: string, p: nat) returns (l: Layout)
    requires p <= |s|
    ensures l == Read(s, p)
    decreases |s| - p, 1
  {
    var q := SkipQualifiers(s, p);
    var c := Char(s, q);
    if c == '\0' {
      return Layout(0, 1, false, false, q);
    }
    var simple := SimpleLayout(c);
    if simple.Some? {
      var (size, align, fp) := simple.value;
      l := Layout(size, align, fp, false, q + 1);
    } else if c == '@' {
      l := Layout(WORD, WORD, false, false, if Char(s, q + 1) == '?' then q + 2 else q + 1);
    } else if c == '^' {
      var _ := ParseTypeLayout(s, q + 1);
      var end := SkipTypeToken(s, q + 1);
      l := Layout(WORD, WORD, false, false, end);
    } else if c == '[' {
      var count, k := ParseUnsigned(s, q + 1);
      var elem := ParseTypeLayout(s, k);
      l := elem.(size := count * elem.size % UINT64);
      if Char(s, l.end) == ']' {
        l := l.(end := l.end + 1);
      } else {
        l := l.(unsupported := true);
      }
    } else if c == '{' || c == '(' {
      l := ParseAggregateLayout(s, q + 1, c == '(');
    } else {
      var end := SkipTypeToken(s, q);
      l := Layout(WORD, WORD, false, true, end);
    }
  }

  /** The two aggregate cases, which differ in the bracket and in how a member is added. */
  method ParseAggregateLayout(s: string, p: nat, union: bool) returns (l: Layout)
    requires p <= |s|
    ensures l == ReadAggregate(s, p, union)
    decreases |s| - p, 2
  {
    hide Read, AlignUp;
    var close := if union then ')' else '}';
    var end := SkipName(s, p, close);
    if Char(s, end) == close {
      return Layout(0, 1, false, true, end + 1);
    }
    if Char(s, end) != '=' {
      return Layout(0, 1, false, true, end);
    }
    l := ParseMembersLayout(s, end + 1, union);
    if Char(s, l.end) == close {
      l := l.(end := l.end + 1);
    } else {
      l := l.(unsupported := true);
    }
    l := l.(size := AlignUp(l.size, l.align));
  }

  method SkipName(s: string, p: nat, close: char) returns (end: nat)
    requires p <= |s| && close != '\0'
    ensures end == RunEnd(s, p, NameChar(close))
  {
    end := p;
    while Char(s, end) != '\0' && Char(s, end) != '=' && Char(s, end) != close
      invariant p <= end <= |s| && RunEnd(s, end, NameChar(close)) == RunEnd(s, p, NameChar(close))
      decreases |s| - end
    {
      end := end + 1;
    }
  }

  method ParseMembersLayout(s: string, start: nat, union: bool) returns (l: Layout)
    requires start <= |s|
    ensures l == ReadMembers(s, start, union, Layout(0, 1, false, false, start))
    decreases |s| - start, 3
  {
    hide Read, AlignUp;
    l := Layout(0, 1, false, false, start);
    while Char(s, l.end) != '\0' && Char(s, l.end) != (if union then ')' else '}')
      invariant start <= l.end <= |s| && IsAlign(l.align) && l.size < UINT64
      invariant ReadMembers(s, l.end, union, l) == ReadMembers(s, start, union, Layout(0, 1, false, false, start))
      decreases |s| - l.end
    {
      var field := ParseTypeLayout(s, l.end);
      var size := if union then Max(l.size, field.size) else (AlignUp(l.size, field.align) + field.size) % UINT64;
      l := Layout(size, Max(l.align, field.align), l.fp || field.fp, l.unsupported || field.unsupported, field.end);
    }
  }

  // ---------------------------------------------------------------- the layout of a type

  /** The types whose layout is read: no bit-fields, vectors or complex numbers, no labels, no class
      names, and aggregates with their members listed. */
  predicate Laid(t: Type) {
    AllOf(QualText(t.quals), IsCommonQualifier) && LaidBody(t.body)
  }

  predicate LaidBody(b: Body) {
    match b
    case Simple(k) => k != Unknown
    case Object => true
    case Block => true
    case Pointer(_, e) => Plain(e) && Skips(e)
    case Array(_, e) => Laid(e)
    case Aggregate(_, _, members) => members.Some? && LaidMembers(members.value)
    case _ => false
  }

  predicate LaidMembers(m: Members) {
    m.labels == [] && (m.Member? ==> Laid(m.first) && LaidMembers(m.rest))
  }

  /** The bytes of a value of a kind without parts. */
  function ScalarSize(k: Kind): nat {
    if k == Void then 0
    else if k == SignedChar || k == UnsignedChar || k == Boolean then 1
    else if k == Short || k == UnsignedShort then 2
    else if k == Int || k == UnsignedInt || k == Float then 4
    else 8
  }

  /** A scalar is aligned to its own size. */
  function ScalarAlign(k: Kind): (a: nat)
    ensures IsAlign(a)
  {
    if k == Void then 1 else ScalarSize(k)
  }

  /** The next multiple of an alignment. */
  function RoundUp(v: nat, a: nat): (r: nat)
    requires IsAlign(a)
    ensures v <= r < v + a && r % a == 0
  {
    RoundUpIs(v, a);
    if v % a == 0 then v else v + (a - v % a)
  }

  lemma RoundUpIs(v: nat, a: nat)
    requires IsAlign(a)
    ensures 0 <= v % a < a && (v % a != 0 ==> (v + (a - v % a)) % a == 0)
  {
    if a == 1 { RoundUpIs1(v); } else if a == 2 { RoundUpIs2(v); } else if a == 4 { RoundUpIs4(v); }
      else { RoundUpIs8(v); }
  }

  lemma RoundUpIs1(v: nat)
    ensures v % 1 == 0
  {
  }

  lemma RoundUpIs2(v: nat)
    ensures 0 <= v % 2 < 2 && (v % 2 != 0 ==> (v + (2 - v % 2)) % 2 == 0)
  {
  }

  lemma RoundUpIs4(v: nat)
    ensures 0 <= v % 4 < 4 && (v % 4 != 0 ==> (v + (4 - v % 4)) % 4 == 0)
  {
  }

  lemma RoundUpIs8(v: nat)
    ensures 0 <= v % 8 < 8 && (v % 8 != 0 ==> (v + (8 - v % 8)) % 8 == 0)
  {
  }

  function Align(t: Type): (a: nat)
    requires Laid(t)
    ensures IsAlign(a)
  {
    assert LaidBody(t.body);
    match t.body
    case Simple(k) => ScalarAlign(k)
    case Array(_, e) => Align(e)
    case Aggregate(_, _, members) => AlignMembers(members.value)
    case _ => WORD
  }

  /** The largest alignment of the members. */
  function AlignMembers(m: Members): (a: nat)
    requires LaidMembers(m)
    ensures IsAlign(a)
  {
    if m.Last? then 1 else Max(Align(m.first), AlignMembers(m.rest))
  }

  /** The number of bytes a type takes, with no word size in the way. */
  function Size(t: Type): nat
    requires Good(t) && Laid(t)
  {
    assert GoodBody(t.body) && LaidBody(t.body);
    match t.body
    case Simple(k) => ScalarSize(k)
    case Array(digits, e) => Decimal(digits) * Size(e)
    case Aggregate(open, _, members) =>
      RoundUp(if open == '(' then Widest(members.value, ')') else Extent(members.value, '}', 0),
        AlignMembers(members.value))
    case _ => WORD
  }

  /** Where the members end when the first one may start no earlier than `from`. */
  function Extent(m: Members, close: char, from: nat): nat
    requires GoodMembers(m, close) && LaidMembers(m)
    decreases m
  {
    if m.Last? then from else Extent(m.rest, close, RoundUp(from, Align(m.first)) + Size(m.first))
  }

  function Widest(m: Members, close: char): nat
    requires GoodMembers(m, close) && LaidMembers(m)
  {
    if m.Last? then 0 else Max(Size(m.first), Widest(m.rest, close))
  }

  predicate HasFp(t: Type)
    requires Laid(t)
  {
    assert LaidBody(t.body);
    match t.body
    case Simple(k) => k == Float || k == Double || k == LongDouble
    case Array(_, e) => HasFp(e)
    case Aggregate(_, _, members) => MembersHaveFp(members.value)
    case _ => false
  }

  predicate MembersHaveFp(m: Members)
    requires LaidMembers(m)
  {
    m.Member? && (HasFp(m.first) || MembersHaveFp(m.rest))
  }

  /** Nothing in the type is too big for a word. */
  predicate Sized(t: Type)
    requires Good(t) && Laid(t)
  {
    assert GoodBody(t.body) && LaidBody(t.body);
    && Size(t) < UINT64
    && match t.body
       case Array(_, e) => Sized(e)
       case Aggregate(open, _, members) => SizedMembers(members.value, Close(open))
       case _ => true
  }

  predicate SizedMembers(m: Members, close: char)
    requires GoodMembers(m, close) && LaidMembers(m)
  {
    m.Member? ==> Sized(m.first) && SizedMembers(m.rest, close)
  }

  // ---------------------------------------------------------------- what a struct's layout is like

  /** The offsets of the members in order. */
  function Offsets(m: Members, close: char, from: nat): (r: seq<nat>)
    requires GoodMembers(m, close) && LaidMembers(m)
    decreases m
  {
    if m.Last? then []
    else
      var at := RoundUp(from, Align(m.first));
      [at] + Offsets(m.rest, close, at + Size(m.first))
  }

  function TypesOf(m: Members): seq<Type> {
    if m.Last? then [] else [m.first] + TypesOf(m.rest)
  }

  predicate LaidType(t: Type) {
    Good(t) && Laid(t)
  }

  /** Member `i` is aligned and between the two ends. */
  predicate Placed(at: seq<nat>, ts: seq<Type>, i: nat, from: nat, end: nat) {
    i < |at| && i < |ts| && LaidType(ts[i]) && from <= at[i] && at[i] % Align(ts[i]) == 0 && at[i] + Size(ts[i]) <= end
  }

  /** Member `i` ends before member `j` starts. */
  predicate Before(at: seq<nat>, ts: seq<Type>, i: nat, j: nat) {
    i < |ts| && i < |at| && j < |at| && LaidType(ts[i]) && at[i] + Size(ts[i]) <= at[j]
  }

  /** Members of a struct lie in order, aligned, apart from each other, and inside its extent. */
  lemma {:induction false} MembersArePlaced(m: Members, close: char, from: nat)
    requires GoodMembers(m, close) && LaidMembers(m)
    ensures var (at, ts) := (Offsets(m, close, from), TypesOf(m));
            && |at| == |ts| && from <= Extent(m, close, from)
            && (forall i :: 0 <= i < |ts| ==> Placed(at, ts, i, from, Extent(m, close, from)))
            && (forall i, j :: 0 <= i < j < |ts| ==> Before(at, ts, i, j))
    decreases m
  {
    hide Size, Align, Good, Laid, Clash, FirstChar, GoodLabels, Placed, Before;
    if m.Member? {
      var first := RoundUp(from, Align(m.first));
      var next := first + Size(m.first);
      MembersArePlaced(m.rest, close, next);
      var at, ts := Offsets(m, close, from), TypesOf(m);
      var at1, ts1 := Offsets(m.rest, close, next), TypesOf(m.rest);
      var end := Extent(m, close, from);
      assert at == [first] + at1 && ts == [m.first] + ts1 && end == Extent(m.rest, close, next);
      FirstPlaced(first, m.first, at1, ts1, next, from, end);
    }
  }

  /** A member in front of others that are placed behind it. */
  lemma {:induction false} FirstPlaced(first: nat, t: Type, at: seq<nat>, ts: seq<Type>, next: nat, from: nat, end: nat)
    requires |at| == |ts| && LaidType(t) && first % Align(t) == 0 && from <= first && next == first + Size(t) <= end
    requires forall i :: 0 <= i < |ts| ==> Placed(at, ts, i, next, end)
    requires forall i, j :: 0 <= i < j < |ts| ==> Before(at, ts, i, j)
    ensures forall i :: 0 <= i < |ts| + 1 ==> Placed([first] + at, [t] + ts, i, from, end)
    ensures forall i, j :: 0 <= i < j < |ts| + 1 ==> Before([first] + at, [t] + ts, i, j)
  {
    hide Size, Align, Good, Laid;
    forall i | 0 <= i < |ts| + 1 ensures Placed([first] + at, [t] + ts, i, from, end) {
      if i > 0 { LaterPlaced(first, t, at, ts, i - 1, next, from, end); }
    }
    forall i, j | 0 <= i < j < |ts| + 1 ensures Before([first] + at, [t] + ts, i, j) {
      assert Placed(at, ts, j - 1, next, end);
      if i > 0 { LaterBefore(first, t, at, ts, i - 1, j - 1); }
    }
  }

  lemma LaterPlaced(first: nat, t: Type, at: seq<nat>, ts: seq<Type>, i: nat, next: nat, from: nat, end: nat)
    requires Placed(at, ts, i, next, end) && from <= next
    ensures Placed([first] + at, [t] + ts, i + 1, from, end)
  {
    hide Size, Align, Good, Laid;
  }

  lemma LaterBefore(first: nat, t: Type, at: seq<nat>, ts: seq<Type>, i: nat, j: nat)
    requires Before(at, ts, i, j)
    ensures Before([first] + at, [t] + ts, i + 1, j + 1)
  {
    hide Size, Align, Good, Laid;
  }

  // ---------------------------------------------------------------- the reader computes it

  lemma AlignIs(v: nat, a: nat)
    requires IsAlign(a) && v < UINT64 && RoundUp(v, a) < UINT64
    ensures AlignUp(v, a) == RoundUp(v, a)
  {
    if a == 1 { assert v % 1 == 0; }
    else if a == 2 { AlignIs2(v); }
    else if a == 4 { AlignIs4(v); }
    else { AlignIs8(v); }
  }

  lemma AlignIs2(v: nat)
    requires v < UINT64 && RoundUp(v, 2) < UINT64
    ensures AlignUp(v, 2) == RoundUp(v, 2)
  {
  }

  lemma AlignIs4(v: nat)
    requires v < UINT64 && RoundUp(v, 4) < UINT64
    ensures AlignUp(v, 4) == RoundUp(v, 4)
  {
  }

  lemma AlignIs8(v: nat)
    requires v < UINT64 && RoundUp(v, 8) < UINT64
    ensures AlignUp(v, 8) == RoundUp(v, 8)
  {
  }

  /** Where the reader goes from a code that qualifiers precede. */
  lemma {:induction false} ReadAtCode(s: string, p: nat, q: nat)
    requires p <= q < |s| && RunEnd(s, p, IsCommonQualifier) == q && s[q] != '\0'
    ensures SimpleLayout(s[q]).Some? ==>
              var l := SimpleLayout(s[q]).value; Read(s, p) == Layout(l.0, l.1, l.2, false, q + 1)
    ensures s[q] == '@' ==>
            Read(s, p) == Layout(WORD, WORD, false, false, if Char(s, q + 1) == '?' then q + 2 else q + 1)
    ensures s[q] == '^' ==> Read(s, p) == Layout(WORD, WORD, false, false, SkipEnd(s, q + 1))
    ensures s[q] == '[' ==> Read(s, p) == ReadArray(s, q + 1)
    ensures s[q] == '{' || s[q] == '(' ==> Read(s, p) == ReadAggregate(s, q + 1, s[q] == '(')
  {
    hide RunEnd, SkipEnd, ReadArray, ReadAggregate;
  }

  lemma {:induction false} LaidStart(s: string, p: nat, t: Type)
    requires Good(t) && Laid(t) && At(s, p, Print(t))
    ensures var q := p + |QualText(t.quals)|;
            q < |s| && s[q] == Code(t.body) && s[q] != '\0' && At(s, q, PrintBody(t.body))
              && RunEnd(s, p, IsCommonQualifier) == q
    ensures GoodBody(t.body) && LaidBody(t.body)
  {
    hide At, AllOf, GoodBody, LaidBody, PrintBody;
    var q := p + |QualText(t.quals)|;
    AtSplit(s, p, QualText(t.quals), PrintBody(t.body));
    AtChar(s, q, PrintBody(t.body), 0);
    FirstOf(t);
    RunIs(s, p, QualText(t.quals), IsCommonQualifier);
  }

  predicate Reads(s: string, p: nat, t: Type)
    requires p <= |s| && LaidType(t)
  {
    Read(s, p) == Layout(Size(t), Align(t), HasFp(t), false, p + |Print(t)|)
  }

  /** For every laid-out type whose sizes fit a word, the reader answers its size and alignment, whether
      it holds floating point, and where it ends. */
  lemma {:induction false} ReadIs(s: string, p: nat, t: Type)
    requires LaidType(t) && Sized(t) && At(s, p, Print(t)) && !Clash(t, Char(s, p + |Print(t)|))
    ensures p <= |s| && Reads(s, p, t)
    decreases t, 2
  {
    hide At, AllOf, RunEnd, Read, ReadArray, ReadAggregate, SkipEnd, Plain, Skips, Good, Laid, GoodBody, LaidBody;
    hide SimpleLayout, PrintBody, Size, Align, HasFp, Sized, Clash;
    var q := p + |QualText(t.quals)|;
    LaidStart(s, p, t);
    ReadAtCode(s, p, q);
    match t.body
    case Array(digits, e) => ArrayRead(s, q + 1, t);
    case Aggregate(open, name, members) =>
      OpenIs(t);
      AggregateRead(s, q + 1, t);
    case _ => ScalarRead(s, p, t);
  }

  lemma {:induction false} OpenIs(t: Type)
    requires Good(t) && t.body.Aggregate?
    ensures t.body.open == '{' || t.body.open == '('
  {
  }

  lemma {:induction false} ScalarRead(s: string, p: nat, t: Type)
    requires LaidType(t) && At(s, p, Print(t)) && !Clash(t, Char(s, p + |Print(t)|)) && !t.body.Array?
    requires !t.body.Aggregate?
    ensures p <= |s| && Reads(s, p, t)
  {
    hide At, AllOf, RunEnd, Read, ReadArray, ReadAggregate, SkipEnd, Plain, Skips, SimpleLayout;
    var q := p + |QualText(t.quals)|;
    LaidStart(s, p, t);
    ReadAtCode(s, p, q);
    if t.body.Pointer? {
      PointerRead(s, q, t.body.extra, t.body.elem);
    } else {
      hide Clash, Letter, ScalarSize, ScalarAlign;
      BlockRead(s, q, t);
      if t.body.Simple? {
        ScalarIs(t.body.kind);
      }
    }
  }

  /** The reader's scalar table, letter by letter, is the one of the kinds. */
  lemma ScalarIs(k: Kind)
    requires Letter(k) != '\0' && k != Unknown
    ensures SimpleLayout(Letter(k)) ==
            Some((ScalarSize(k), ScalarAlign(k), k == Float || k == Double || k == LongDouble))
  {
  }

  /** An object's code is not followed by what would make it a block's. */
  lemma {:induction false} BlockRead(s: string, q: nat, t: Type)
    requires At(s, q, PrintBody(t.body)) && !Clash(t, Char(s, q + |PrintBody(t.body)|))
    ensures t.body.Block? ==> Char(s, q + 1) == '?'
    ensures t.body.Object? ==> Char(s, q + 1) != '?'
  {
    if t.body.Block? { AtChar(s, q, "@?", 1); }
  }

  lemma {:induction false} PointerRead(s: string, q: nat, n: nat, e: Type)
    requires Good(e) && Plain(e) && Skips(e) && At(s, q, "^" + (Carets(n) + Print(e)))
    requires !Clash(e, Char(s, q + 1 + n + |Print(e)|))
    ensures q < |s| && SkipEnd(s, q + 1) == q + 1 + n + |Print(e)|
  {
    hide At, Good, Plain, Skips, Print, Carets, SkipEnd, Clash;
    AtSplit(s, q, "^", Carets(n) + Print(e));
    AtChar(s, q, "^", 0);
    AtSplit(s, q + 1, Carets(n), Print(e));
    SkipCarets(s, q + 1, n);
    SkipsPrinted(s, q + 1 + n, e);
  }

  lemma {:induction false} ArrayRead(s: string, p: nat, t: Type)
    requires LaidType(t) && Sized(t) && t.body.Array? && p > 0 && At(s, p - 1, PrintBody(t.body))
    ensures p <= |s| && ReadArray(s, p) == Layout(Size(t), Align(t), HasFp(t), false, p - 1 + |PrintBody(t.body)|)
    decreases t, 1
  {
    hide At, AllOf, RunEnd, Read, Good, Laid, Print, PrintBody, GoodBody, LaidBody, Sized, Size, Align, HasFp;
    hide Decimal, Clash;
    ArrayMeans(t);
    var digits, e := t.body.digits, t.body.elem;
    DigitsAt(s, p, digits, e);
    NoClash(e, ']');
    ReadIs(s, p + |digits|, e);
    CountFits(Decimal(digits), Size(e));
  }

  lemma {:induction false} ArrayMeans(t: Type)
    requires LaidType(t) && Sized(t) && t.body.Array?
    ensures var digits, e := t.body.digits, t.body.elem;
            && AllOf(digits, IsDigit) && LaidType(e) && Sized(e) && Size(e) < UINT64
            && Size(t) == Decimal(digits) * Size(e) < UINT64 && Align(t) == Align(e) && HasFp(t) == HasFp(e)
            && PrintBody(t.body) == "[" + (digits + (Print(e) + "]"))
  {
    assert GoodBody(t.body) && LaidBody(t.body);
  }

  /** A count too big for a word can only multiply a size of zero. */
  lemma CountFits(n: nat, size: nat)
    requires n * size < UINT64 && size < UINT64
    ensures n % UINT64 * size % UINT64 == n * size
  {
    if size == 0 {
      assert n % UINT64 * 0 == 0;
    } else {
      AtLeast(n, size);
      assert n % UINT64 == n;
    }
  }

  lemma AtLeast(n: nat, size: nat)
    requires size > 0
    ensures n <= n * size
  {
  }

  lemma {:induction false} AggregateRead(s: string, p: nat, t: Type)
    requires LaidType(t) && Sized(t) && t.body.Aggregate? && p > 0 && At(s, p - 1, PrintBody(t.body))
    ensures p <= |s|
    ensures ReadAggregate(s, p, t.body.open == '(') == Layout(Size(t), Align(t), HasFp(t), false, p - 1 +
            |PrintBody(t.body)|)
    decreases t, 1
  {
    hide Size, Align, HasFp, Sized, Good, Laid, LaidType, GoodBody, LaidBody, At, AllOf, RunEnd, ReadMembers;
    hide ReadAggregate, PrintMembers, PrintBody;
    hide GoodMembers, LaidMembers, AlignMembers, Widest, Extent, SizedMembers, RoundUp, AlignUp, MembersHaveFp;
    AggregateMeans(t);
    AggregateAt(s, p, t.body);
    var m, union, close, n := t.body.members.value, t.body.open == '(', Close(t.body.open), p + |t.body.name|;
    MembersRead(s, n + 1, m, union, Layout(0, 1, false, false, n + 1));
    AggregateEnds(s, p, n, union);
    AlignIs(if union then Widest(m, close) else Extent(m, close, 0), AlignMembers(m));
  }

  lemma {:induction false} AggregateAt(s: string, p: nat, b: Body)
    requires b.Aggregate? && GoodBody(b) && b.members.Some? && p > 0 && At(s, p - 1, PrintBody(b))
    ensures var n, w := p + |b.name|, PrintMembers(b.members.value);
            && n + 1 + |w| < |s| && RunEnd(s, p, NameChar(Close(b.open))) == n && s[n] == '=' && At(s, n + 1, w)
            && s[n + 1 + |w|] == Close(b.open) && n + 2 + |w| == p - 1 + |PrintBody(b)|
  {
    hide At, AllOf, RunEnd, PrintMembers, GoodMembers;
    var close, w, n := Close(b.open), PrintMembers(b.members.value), p + |b.name|;
    NameAt(s, p, b.open, b.name, TailOf(b));
    AtSplit(s, n, "=", w + [close]);
    AtSplit(s, n + 1, w, [close]);
    AtChar(s, n + 1 + |w|, [close], 0);
  }

  lemma {:induction false} AggregateMeans(t: Type)
    requires LaidType(t) && Sized(t) && t.body.Aggregate?
    ensures GoodBody(t.body) && LaidBody(t.body) && AllOf(t.body.name, NameChar(Close(t.body.open)))
    ensures t.body.members.Some? && (t.body.open == '{' || t.body.open == '(')
    ensures var m, close := t.body.members.value, Close(t.body.open);
            && GoodMembers(m, close) && LaidMembers(m) && SizedMembers(m, close)
            && Size(t) == RoundUp(if t.body.open == '(' then Widest(m, close)
              else Extent(m, close, 0), AlignMembers(m)) < UINT64
            && Align(t) == AlignMembers(m) && HasFp(t) == MembersHaveFp(m)
  {
    assert GoodBody(t.body) && LaidBody(t.body);
    hide AllOf, RoundUp;
  }

  lemma {:induction false} AggregateEnds(s: string, p: nat, n: nat, union: bool)
    requires var close := if union then ')' else '}';
             && p <= n < |s| && RunEnd(s, p, NameChar(close)) == n && s[n] == '='
             && Char(s, ReadMembers(s, n + 1, union, Layout(0, 1, false, false, n + 1)).end) == close
    ensures var m := ReadMembers(s, n + 1, union, Layout(0, 1, false, false, n + 1));
            ReadAggregate(s, p, union) == Layout(AlignUp(m.size, m.align), m.align, m.fp, m.unsupported, m.end + 1)
  {
    hide RunEnd, ReadMembers, AlignUp;
  }

  lemma {:induction false} ExtentGrows(m: Members, close: char, from: nat)
    requires GoodMembers(m, close) && LaidMembers(m)
    ensures from <= Extent(m, close, from)
    decreases m
  {
    hide Size, Align, Good, Laid, RoundUp, Clash, FirstChar, GoodLabels;
    if m.Member? { ExtentGrows(m.rest, close, RoundUp(from, Align(m.first)) + Size(m.first)); }
  }

  lemma {:induction false} MembersRead(s: string, p: nat, m: Members, union: bool, l: Layout)
    requires var close := if union then ')' else '}';
             && GoodMembers(m, close) && LaidMembers(m) && SizedMembers(m, close)
             && At(s, p, PrintMembers(m)) && Char(s, p + |PrintMembers(m)|) == close
             && IsAlign(l.align) && l.size < UINT64 && l.end == p && (!union ==> Extent(m, close, l.size) < UINT64)
    ensures var close := if union then ')' else '}';
            && p <= |s|
            && ReadMembers(s, p, union, l) ==
               Layout(if union then Max(l.size, Widest(m, close)) else Extent(m, close, l.size),
                      Max(l.align, AlignMembers(m)), l.fp || MembersHaveFp(m), l.unsupported, p + |PrintMembers(m)|)
    decreases m, 3
  {
    hide At, Read, Good, Laid, Print, Clash, Sized, PrintMembers, FirstChar, Size, Align, HasFp, RoundUp, AlignUp;
    var close := if union then ')' else '}';
    if m.Last? {
      LastPrints(m);
      AtIs(s, p, PrintMembers(m));
    } else {
      var t, rest := m.first, m.rest;
      var q := p + |Print(t)|;
      MemberStarts(s, p, m, close);
      FirstCharIs(s, q, rest, close);
      ReadIs(s, p, t);
      var field := Read(s, p);
      MemberParts(m, close, l.size);
      hide Extent, Widest, AlignMembers, MembersHaveFp;
      if !union { ExtentGrows(rest, close, RoundUp(l.size, Align(t)) + Size(t)); }
      MemberAdds(l, field, t, union);
      MembersRead(s, q, rest, union, AddMember(l, field, union));
      MaxAssoc(l.size, Size(t), Widest(rest, close));
      MaxAssoc(l.align, Align(t), AlignMembers(rest));
    }
  }

  lemma {:induction false} MemberAdds(l: Layout, field: Layout, t: Type, union: bool)
    requires Good(t) && Laid(t) && Size(t) < UINT64 && IsAlign(l.align) && l.size < UINT64
    requires field == Layout(Size(t), Align(t), HasFp(t), false, field.end)
    requires union || RoundUp(l.size, Align(t)) + Size(t) < UINT64
    ensures AddMember(l, field, union) ==
            Layout(if union then Max(l.size, Size(t)) else RoundUp(l.size, Align(t)) + Size(t),
                   Max(l.align, Align(t)), l.fp || HasFp(t), l.unsupported, field.end)
  {
    hide Good, Laid, Size, Align, HasFp;
    if !union { AlignIs(l.size, Align(t)); }
  }

  lemma MemberParts(m: Members, close: char, from: nat)
    requires m.Member? && GoodMembers(m, close) && LaidMembers(m)
    ensures Good(m.first) && Laid(m.first) && GoodMembers(m.rest, close) && LaidMembers(m.rest)
    ensures Extent(m, close, from) == Extent(m.rest, close, RoundUp(from, Align(m.first)) + Size(m.first))
    ensures Widest(m, close) == Max(Size(m.first), Widest(m.rest, close))
    ensures AlignMembers(m) == Max(Align(m.first), AlignMembers(m.rest))
    ensures MembersHaveFp(m) <==> HasFp(m.first) || MembersHaveFp(m.rest)
  {
    hide Good, Laid, Size, Align, HasFp;
  }

  lemma MaxAssoc(a: nat, b: nat, c: nat)
    ensures Max(Max(a, b), c) == Max(a, Max(b, c))
  {
  }

  lemma {:induction false} LastPrints(m: Members)
    requires m.Last? && LaidMembers(m)
    ensures PrintMembers(m) == ""
  {
  }

  lemma {:induction false} MemberStarts(s: string, p: nat, m: Members, close: char)
    requires m.Member? && LaidMembers(m) && GoodMembers(m, close)
    requires (close == '}' || close == ')') && At(s, p, PrintMembers(m))
    ensures var q := p + |Print(m.first)|;
            && At(s, p, Print(m.first)) && At(s, q, PrintMembers(m.rest))
              && q + |PrintMembers(m.rest)| == p + |PrintMembers(m)|
            && p < |s| && Char(s, p) != '\0' && Char(s, p) != close
  {
    hide At, Good, Laid, Print;
    NoLabels();
    assert PrintMembers(m) == Print(m.first) + PrintMembers(m.rest);
    AtSplit(s, p, Print(m.first), PrintMembers(m.rest));
    AtChar(s, p, Print(m.first), 0);
    FirstOf(m.first);
  }

  // ---------------------------------------------------------------- the scalars, letter by letter

  /** Size and alignment of a text of one letter, and whether it is floating-point. */
  function Scalar(w: string): (nat, nat, bool) {
    (Read(w, 0).size, Read(w, 0).align, Read(w, 0).fp)
  }

  lemma {:induction false} LetterRead(c: char)
    requires SimpleLayout(c).Some?
    ensures Scalar([c]) == SimpleLayout(c).value
  {
    assert RunEnd([c], 0, IsCommonQualifier) == 0;
  }

  lemma ScalarLetters()
    ensures Scalar("v") == (0, 1, false) && Scalar("c") == (1, 1, false) && Scalar("C") == (1, 1, false)
    ensures Scalar("B") == (1, 1, false) && Scalar("s") == (2, 2, false) && Scalar("S") == (2, 2, false)
    ensures Scalar("i") == (4, 4, false) && Scalar("I") == (4, 4, false) && Scalar("f") == (4, 4, true)
    ensures Scalar("l") == (8, 8, false) && Scalar("L") == (8, 8, false) && Scalar("q") == (8, 8, false)
    ensures Scalar("Q") == (8, 8, false) && Scalar("d") == (8, 8, true) && Scalar("D") == (8, 8, true)
    ensures Scalar("*") == (8, 8, false) && Scalar(":") == (8, 8, false) && Scalar("#") == (8, 8, false)
  {
    hide Scalar, Read;
    LetterRead('v'); LetterRead('c'); LetterRead('C'); LetterRead('B'); LetterRead('s'); LetterRead('S');
    LetterRead('i'); LetterRead('I'); LetterRead('f'); LetterRead('l'); LetterRead('L'); LetterRead('q');
    LetterRead('Q'); LetterRead('d'); LetterRead('D'); LetterRead('*'); LetterRead(':'); LetterRead('#');
  }
}

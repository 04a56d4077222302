/** The language of Objective-C type encodings: its trees, how they are printed, and scanning over a
    NUL-terminated text. */
module EncodingSyntax {

  import opened Wrappers

  // ---------------------------------------------------------------- scanning

  /** The character a C string has at an index: NUL at and past its end. */
  function Char(s: string, i: nat): char {
    if i < |s| then s[i] else '\0'
  }

  lemma AtJoin(s: string, i: nat, a: string, b: string)
    requires At(s, i, a) && At(s, i + |a|, b)
    ensures At(s, i, a + b)
  {
    assert s[i..i + |a + b|] == s[i..i + |a|] + s[i + |a|..i + |a| + |b|];
  }

  lemma AtChar(s: string, i: nat, w: string, k: nat)
    requires At(s, i, w) && k < |w|
    ensures i + k < |s| && s[i + k] == w[k]
  {
    assert s[i..i + |w|][k] == s[i + k];
  }

  predicate IsDigit(c: char) {
    '0' <= c <= '9'
  }

  predicate IsQualifier(c: char) {
    c == 'r' || c == 'n' || c == 'N' || c == 'o' || c == 'O' || c == 'R' || c == 'V' || c == 'A'
  }

  predicate IsCaret(c: char) {
    c == '^'
  }

  predicate NotQuote(c: char) {
    c != '"' && c != '\0'
  }

  function NameChar(close: char): char -> bool {
    c => c != '\0' && c != '=' && c != close
  }

  predicate AllOf(w: string, p: char -> bool) {
    forall k :: 0 <= k < |w| ==> p(w[k])
  }

  /** Where a run of characters satisfying `p` ends. */
  function RunEnd(s: string, i: nat, p: char -> bool): (j: nat)
    ensures i <= j && (i <= |s| ==> j <= |s| && AllOf(s[i..j], p)) && !(j < |s| && p(s[j]))
    decreases |s| - i
  {
    if i < |s| && p(s[i]) then
      var j := RunEnd(s, i + 1, p);
      assert s[i..j] == [s[i]] + s[i + 1..j];
      j
    else i
  }

  lemma {:induction false} RunIs(s: string, i: nat, w: string, p: char -> bool)
    requires At(s, i, w) && AllOf(w, p) && !(i + |w| < |s| && p(s[i + |w|]))
    ensures RunEnd(s, i, p) == i + |w|
    decreases |w|
  {
    if w != "" {
      AtChar(s, i, w, 0);
      assert w == [w[0]] + w[1..];
      AtSplit(s, i, [w[0]], w[1..]);
      assert p(w[0]);
      forall k | 0 <= k < |w[1..]| ensures p(w[1..][k]) { assert p(w[k + 1]); }
      RunIs(s, i + 1, w[1..], p);
    }
  }

  /** The value of a run of decimal digits. */
  function Decimal(w: string): nat
    requires AllOf(w, IsDigit)
  {
    if w == "" then 0
    else
      assert IsDigit(w[|w| - 1]);
      10 * Decimal(w[..|w| - 1]) + (w[|w| - 1] as int - '0' as int)
  }

  /** A number as it is usually written. */
  function Numeral(n: nat): (w: string)
    ensures |w| > 0
  {
    if n < 10 then ["0123456789"[n]] else Numeral(n / 10) + ["0123456789"[n % 10]]
  }

  /** The value of a number written out is the number. */
  lemma {:induction false} DecimalIsNumeral(n: nat)
    ensures AllOf(Numeral(n), IsDigit) && Decimal(Numeral(n)) == n
  {
    var w := Numeral(n);
    if n >= 10 {
      DecimalIsNumeral(n / 10);
      assert w[..|w| - 1] == Numeral(n / 10);
    } else {
      assert w[..0] == "";
    }
  }

  // ---------------------------------------------------------------- trees

  datatype Kind =
    | Unknown | Void | Boolean | SignedChar | UnsignedChar | Short | UnsignedShort | Int | UnsignedInt
    | Long | UnsignedLong | LongLong | UnsignedLongLong | Float | Double | LongDouble | CharPointer
    | ObjectKind | BlockKind | ClassKind
    | SelectorKind | PointerKind | ArrayKind | StructKind | UnionKind | BitFieldKind | ComplexKind | VectorKind

  datatype Qualifier = Const | In | InOut | Out | ByCopy | ByRef | OneWay | Atomic

  /** A type is a run of qualifiers and a body; a simple body is a kind that has a letter. A pointer of `extra` more
      carets is as deep as it has carets; an aggregate without members has no `=`; labels are the quoted names in
      front of a member, and may also stand after the last one. */
  datatype Type = Type(quals: seq<Qualifier>, body: Body)

  datatype Body =
    | Simple(kind: Kind)
    | Object
    | Named(name: string)
    | Block
    | Pointer(extra: nat, elem: Type)
    | Array(digits: string, elem: Type)
    | Aggregate(open: char, name: string, members: Option<Members>)
    | Bits(digits: string)
    | Complex(elem: Type)
    | Vector
    | VectorOf(elem: Type)

  datatype Members = Last(labels: seq<string>) | Member(labels: seq<string>, first: Type, rest: Members)

  /** The letter a kind without parts is written as, or NUL. */
  function Letter(k: Kind): char {
    match k
    case Void => 'v'
    case Boolean => 'B'
    case SignedChar => 'c'
    case UnsignedChar => 'C'
    case Short => 's'
    case UnsignedShort => 'S'
    case Int => 'i'
    case UnsignedInt => 'I'
    case Long => 'l'
    case UnsignedLong => 'L'
    case LongLong => 'q'
    case UnsignedLongLong => 'Q'
    case Float => 'f'
    case Double => 'd'
    case LongDouble => 'D'
    case CharPointer => '*'
    case ClassKind => '#'
    case SelectorKind => ':'
    case Unknown => '?'
    case _ => '\0'
  }

  function QualifierLetter(q: Qualifier): (c: char)
    ensures IsQualifier(c)
  {
    match q
    case Const => 'r'
    case In => 'n'
    case InOut => 'N'
    case Out => 'o'
    case ByCopy => 'O'
    case ByRef => 'R'
    case OneWay => 'V'
    case Atomic => 'A'
  }

  function QualText(quals: seq<Qualifier>): (w: string)
    ensures |w| == |quals| && AllOf(w, IsQualifier)
    ensures forall k :: 0 <= k < |quals| ==> w[k] == QualifierLetter(quals[k])
  {
    seq(|quals|, k requires 0 <= k < |quals| => QualifierLetter(quals[k]))
  }

  function Close(open: char): char {
    if open == '{' then '}' else ')'
  }

  function Carets(n: nat): (w: string)
    ensures |w| == n && AllOf(w, IsCaret)
  {
    seq(n, _ => '^')
  }

  function Quoted(w: string): string {
    "\"" + w + "\""
  }

  function Labels(labels: seq<string>): string {
    if labels == [] then "" else Quoted(labels[0]) + Labels(labels[1..])
  }

  function Print(t: Type): (w: string)
    ensures |w| > 0
  {
    QualText(t.quals) + PrintBody(t.body)
  }

  function PrintBody(b: Body): (w: string)
    ensures |w| > 0 && w[0] == Code(b)
  {
    match b
    case Simple(k) => [Letter(k)]
    case Object => "@"
    case Named(name) => "@" + Quoted(name)
    case Block => "@?"
    case Pointer(n, e) => "^" + (Carets(n) + Print(e))
    case Array(digits, e) => "[" + (digits + (Print(e) + "]"))
    case Aggregate(open, name, members) =>
      [open] + (name + if members.None? then [Close(open)] else "=" + (PrintMembers(members.value) + [Close(open)]))
    case Bits(digits) => "b" + digits
    case Complex(e) => "j" + Print(e)
    case Vector => "!"
    case VectorOf(e) => "!" + Print(e)
  }

  function PrintMembers(m: Members): string {
    match m
    case Last(labels) => Labels(labels)
    case Member(labels, t, rest) => Labels(labels) + (Print(t) + PrintMembers(rest))
  }

  /** The character a body starts with. */
  function Code(b: Body): char {
    match b
    case Simple(k) => Letter(k)
    case Object => '@'
    case Named(_) => '@'
    case Block => '@'
    case Pointer(_, _) => '^'
    case Array(_, _) => '['
    case Aggregate(open, _, _) => open
    case Bits(_) => 'b'
    case Complex(_) => 'j'
    case Vector => '!'
    case VectorOf(_) => '!'
  }

  predicate IsSimple(c: char) {
    || c == 'v' || c == 'B' || c == 'c' || c == 'C' || c == 's' || c == 'S' || c == 'i' || c == 'I' || c == 'l'
      || c == 'L'
    || c == 'q' || c == 'Q' || c == 'f' || c == 'd' || c == 'D' || c == '*' || c == '#' || c == ':' || c == '?'
  }

  /** The next character would be read as part of the type. */
  predicate Clash(t: Type, c: char) {
    match t.body
    case Object => c == '?' || c == '"'
    case Bits(_) => IsDigit(c)
    case Vector => c == '['
    case Pointer(_, e) => Clash(e, c)
    case Complex(e) => Clash(e, c)
    case VectorOf(e) => Clash(e, c)
    case _ => false
  }

  function FirstChar(m: Members, close: char): char {
    match m
    case Last(labels) => if labels == [] then close else '"'
    case Member(labels, t, _) => if labels == [] then Print(t)[0] else '"'
  }

  predicate GoodLabels(labels: seq<string>) {
    forall k :: 0 <= k < |labels| ==> AllOf(labels[k], NotQuote)
  }

  /** Normal form: adjacent unqualified pointers are one pointer, names stop where the parser stops,
      and no member runs into the next. */
  predicate Good(t: Type) {
    GoodBody(t.body)
  }

  predicate GoodBody(b: Body) {
    match b
    case Simple(k) => Letter(k) != '\0'
    case Object => true
    case Named(name) => AllOf(name, NotQuote)
    case Block => true
    case Pointer(_, e) => Good(e) && (e.quals == [] ==> !e.body.Pointer?)
    case Array(digits, e) => AllOf(digits, IsDigit) && Good(e)
    case Aggregate(open, name, members) =>
      && (open == '{' || open == '(') && AllOf(name, NameChar(Close(open)))
      && (members.Some? ==> GoodMembers(members.value, Close(open)))
    case Bits(digits) => AllOf(digits, IsDigit)
    case Complex(e) => Good(e)
    case Vector => true
    case VectorOf(e) => Good(e) && e.quals == [] && e.body.Array?
  }

  predicate GoodMembers(m: Members, close: char) {
    match m
    case Last(labels) => GoodLabels(labels)
    case Member(labels, t, rest) =>
      GoodLabels(labels) && Good(t) && GoodMembers(rest, close) && !Clash(t, FirstChar(rest, close))
  }

  /** What a type can start with: neither a digit, nor a sign, nor a quote, nor a closing bracket. */
  predicate Starts(c: char) {
    IsQualifier(c) || IsSimple(c) || c == '@' || c == '^'
      || c == '[' || c == '{' || c == '(' || c == 'b' || c == 'j' || c == '!'
  }

  lemma {:induction false} FirstOf(t: Type)
    requires Good(t)
    ensures Starts(Print(t)[0]) && Starts(Code(t.body)) && !IsQualifier(Code(t.body))
    ensures if t.quals == [] then Print(t)[0] == Code(t.body) else IsQualifier(Print(t)[0])
    ensures (Code(t.body) == '^' <==> t.body.Pointer?) && (Code(t.body) == '[' <==> t.body.Array?)
  {
    hide Good, PrintBody;
    CodeOf(t);
  }

  lemma {:induction false} CodeOf(t: Type)
    requires Good(t)
    ensures Starts(Code(t.body)) && !IsQualifier(Code(t.body))
    ensures (Code(t.body) == '^' <==> t.body.Pointer?) && (Code(t.body) == '[' <==> t.body.Array?)
  {
    hide AllOf;
  }
}

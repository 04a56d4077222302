/** The type-encoding parser: what it computes on any text, and the loops that compute it. */
module EncodingParser {

  import opened Wrappers
  import opened EncodingSyntax

  const UINT32: nat := 0x1_0000_0000
  const UINT64: nat := 0x1_0000_0000_0000_0000
  const INT32_MAX: int := 0x7FFF_FFFF

  /** A stretch of the parsed text. */
  datatype Text = NoText | Text(start: nat, length: nat)

  datatype Encoding = Encoding(
    kind: Kind, quals: set<Qualifier>, depth: nat, count: nat, bits: nat, code: char,
    source: Text, name: Text, element: Text, fields: Text)

  function QualifierFor(c: char): Option<Qualifier> {
    match c
    case 'r' => Some(Const)
    case 'n' => Some(In)
    case 'N' => Some(InOut)
    case 'o' => Some(Out)
    case 'O' => Some(ByCopy)
    case 'R' => Some(ByRef)
    case 'V' => Some(OneWay)
    case 'A' => Some(Atomic)
    case _ => None
  }

  function SimpleKind(c: char): Option<Kind> {
    match c
    case 'v' => Some(Void)
    case 'B' => Some(Boolean)
    case 'c' => Some(SignedChar)
    case 'C' => Some(UnsignedChar)
    case 's' => Some(Short)
    case 'S' => Some(UnsignedShort)
    case 'i' => Some(Int)
    case 'I' => Some(UnsignedInt)
    case 'l' => Some(Long)
    case 'L' => Some(UnsignedLong)
    case 'q' => Some(LongLong)
    case 'Q' => Some(UnsignedLongLong)
    case 'f' => Some(Float)
    case 'd' => Some(Double)
    case 'D' => Some(LongDouble)
    case '*' => Some(CharPointer)
    case '#' => Some(ClassKind)
    case ':' => Some(SelectorKind)
    case '?' => Some(Unknown)
    case _ => None
  }

  /** The qualifiers of a run, each once. */
  function QualSet(w: string): set<Qualifier> {
    set k | 0 <= k < |w| && QualifierFor(w[k]).Some? :: QualifierFor(w[k]).value
  }

  // ---------------------------------------------------------------- what the parser computes

  /** One past the closing quote of a quoted text. */
  function QuoteEnd(s: string, i: nat): (r: Option<nat>)
    requires i < |s|
    ensures r.Some? ==> i + 1 < r.value <= |s| && s[r.value - 1] == '"'
  {
    var q := RunEnd(s, i + 1, NotQuote);
    if q < |s| && s[q] == '"' then Some(q + 1) else None
  }

  function LabelsEnd(s: string, i: nat): (r: Option<nat>)
    requires i <= |s|
    ensures r.Some? ==> i <= r.value <= |s| && Char(s, r.value) != '"'
    decreases |s| - i
  {
    if Char(s, i) != '"' then Some(i)
    else
      var q := QuoteEnd(s, i);
      if q.None? then None else LabelsEnd(s, q.value)
  }

  /** The parts of a type after its code. */
  datatype Parts = Parts(kind: Kind, depth: nat, count: nat, bits: nat, name: Text, element: Text, fields: Text,
    end: nat)

  const PLAIN: Parts := Parts(Unknown, 0, 0, 0, NoText, NoText, NoText, 0)

  function ParseType(s: string, i: nat): (r: Option<(Encoding, nat)>)
    ensures r.Some? ==> i < r.value.1 <= |s|
    decreases |s| - i, 2
  {
    if i > |s| then None
    else
      var q := RunEnd(s, i, IsQualifier);
      if Char(s, q) == '\0' then None
      else
        var p := ParseBody(s, q + 1, s[q]);
        if p.None? then None
        else
          var e := p.value;
          Some((Encoding(e.kind, QualSet(s[i..q]), e.depth, e.count, e.bits, s[q], Text(i, e.end - i), e.name,
            e.element, e.fields), e.end))
  }

  /** The switch on the type code, which was just before `p`. */
  function ParseBody(s: string, p: nat, code: char): (r: Option<Parts>)
    requires p <= |s|
    ensures r.Some? ==> p <= r.value.end <= |s|
    decreases |s| - p, 4
  {
    if SimpleKind(code).Some? then Some(PLAIN.(kind := SimpleKind(code).value, end := p))
    else if code == '@' then ParseObject(s, p)
    else if code == '^' then ParsePointer(s, p)
    else if code == '[' then ParseArray(s, p)
    else if code == '{' || code == '(' then ParseStructOrUnion(s, p, code)
    else if code == 'b' then ParseBitField(s, p)
    else if code == 'j' then ParseElement(s, p, ComplexKind)
    else if code == '!' then
      if Char(s, p) != '[' then Some(PLAIN.(kind := VectorKind, end := p)) else ParseElement(s, p, VectorKind)
    else None
  }

  function ParseObject(s: string, p: nat): (r: Option<Parts>)
    requires p <= |s|
    ensures r.Some? ==> p <= r.value.end <= |s|
  {
    if Char(s, p) == '?' then Some(PLAIN.(kind := BlockKind, end := p + 1))
    else if Char(s, p) == '"' then
      var q := QuoteEnd(s, p);
      if q.None? then None else Some(PLAIN.(kind := ObjectKind, name := Text(p + 1, q.value - p - 2), end := q.value))
    else Some(PLAIN.(kind := ObjectKind, end := p))
  }

  function ParsePointer(s: string, p: nat): (r: Option<Parts>)
    requires p <= |s|
    ensures r.Some? ==> p <= r.value.end <= |s|
    decreases |s| - p, 3
  {
    var k := RunEnd(s, p, IsCaret);
    var e := ParseType(s, k);
    if e.None? then None
    else Some(PLAIN.(kind := PointerKind, depth := (1 + (k - p)) % UINT32, element := e.value.0.source,
      end := e.value.1))
  }

  function ParseArray(s: string, p: nat): (r: Option<Parts>)
    requires p <= |s|
    ensures r.Some? ==> p <= r.value.end <= |s|
    decreases |s| - p, 3
  {
    var k := RunEnd(s, p, IsDigit);
    var e := ParseType(s, k);
    if e.None? || Char(s, e.value.1) != ']' then None
    else Some(PLAIN.(kind := ArrayKind, count := Decimal(s[p..k]) % UINT64, element := e.value.0.source,
      end := e.value.1 + 1))
  }

  function ParseStructOrUnion(s: string, p: nat, code: char): (r: Option<Parts>)
    requires p <= |s|
    ensures r.Some? ==> p <= r.value.end <= |s|
    decreases |s| - p, 3
  {
    var a := ParseAggregate(s, p, Close(code));
    if a.None? then None
    else Some(PLAIN.(kind := if code == '{' then StructKind
      else UnionKind, name := a.value.0, fields := a.value.1, end := a.value.2))
  }

  function ParseBitField(s: string, p: nat): (r: Option<Parts>)
    requires p <= |s|
    ensures r.Some? ==> p <= r.value.end <= |s|
  {
    var k := RunEnd(s, p, IsDigit);
    Some(PLAIN.(kind := BitFieldKind, bits := Decimal(s[p..k]) % UINT64, end := k))
  }

  function ParseElement(s: string, p: nat, kind: Kind): (r: Option<Parts>)
    requires p <= |s|
    ensures r.Some? ==> p <= r.value.end <= |s|
    decreases |s| - p, 3
  {
    var e := ParseType(s, p);
    if e.None? then None else Some(PLAIN.(kind := kind, element := e.value.0.source, end := e.value.1))
  }

  /** Name, fields and end of an aggregate. */
  function ParseAggregate(s: string, p: nat, close: char): (r: Option<(Text, Text, nat)>)
    requires p <= |s| && close != '\0'
    ensures r.Some? ==> p < r.value.2 <= |s|
    decreases |s| - p, 1
  {
    var n := RunEnd(s, p, NameChar(close));
    if Char(s, n) == close then Some((Text(p, n - p), NoText, n + 1))
    else if Char(s, n) != '=' then None
    else
      var f := ParseFields(s, n + 1, close);
      if f.None? then None else Some((Text(p, n - p), Text(n + 1, f.value - n - 1), f.value + 1))
  }

  /** Where the closing bracket is, after labels and types. */
  function ParseFields(s: string, p: nat, close: char): (r: Option<nat>)
    requires p <= |s| && close != '\0'
    ensures r.Some? ==> p <= r.value < |s| && s[r.value] == close
    decreases |s| - p, 5
  {
    if Char(s, p) == close then Some(p)
    else
      var l := LabelsEnd(s, p);
      if l.None? then None
      else if Char(s, l.value) == close then Some(l.value)
      else
        var e := ParseType(s, l.value);
        if e.None? then None else ParseFields(s, e.value.1, close)
  }
}

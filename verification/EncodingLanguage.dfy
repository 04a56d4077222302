/** The parser accepts exactly the printed language and recovers every part of the printed tree. */
module EncodingLanguage {

  import opened Wrappers
  import opened EncodingSyntax
  import opened EncodingParser

  // ---------------------------------------------------------------- what a tree should be read as

  function KindOf(b: Body): Kind
    requires GoodBody(b)
  {
    match b
    case Simple(k) => k
    case Object => ObjectKind
    case Named(_) => ObjectKind
    case Block => BlockKind
    case Pointer(_, _) => PointerKind
    case Array(_, _) => ArrayKind
    case Aggregate(open, _, _) => if open == '{' then StructKind else UnionKind
    case Bits(_) => BitFieldKind
    case Complex(_) => ComplexKind
    case Vector => VectorKind
    case VectorOf(_) => VectorKind
  }

  function ElementText(b: Body, p: nat): Text {
    match b
    case Pointer(n, e) => Text(p + n, |Print(e)|)
    case Array(digits, e) => Text(p + |digits|, |Print(e)|)
    case Complex(e) => Text(p, |Print(e)|)
    case VectorOf(e) => Text(p, |Print(e)|)
    case _ => NoText
  }

  /** Kind, pointer depth, element count, bit width and texts of a body whose code is just before `p`. */
  function PartsOf(b: Body, p: nat): Parts
    requires GoodBody(b)
  {
    Parts(KindOf(b),
          if b.Pointer? then (b.extra + 1) % UINT32 else 0,
          if b.Array? then Decimal(b.digits) % UINT64 else 0,
          if b.Bits? then Decimal(b.digits) % UINT64 else 0,
          if b.Named? then Text(p + 1, |b.name|) else if b.Aggregate? then Text(p, |b.name|) else NoText,
          ElementText(b, p),
          if b.Aggregate? && b.members.Some? then Text(p + |b.name| + 1, |PrintMembers(b.members.value)|) else NoText,
          p - 1 + |PrintBody(b)|)
  }

  function Expect(t: Type, i: nat): Encoding
    requires Good(t)
  {
    var e := PartsOf(t.body, i + |QualText(t.quals)| + 1);
    Encoding(e.kind, (set q | q in t.quals), e.depth, e.count, e.bits, Code(t.body), Text(i, |Print(t)|), e.name,
      e.element, e.fields)
  }

  // ---------------------------------------------------------------- printing, then parsing

  lemma SimpleIs(c: char)
    ensures IsSimple(c) <==> SimpleKind(c).Some?
    ensures IsQualifier(c) <==> QualifierFor(c).Some?
  {
  }

  /** The parser's two tables and the printer's letters are inverses. */
  lemma LettersInvert(c: char, k: Kind, q: Qualifier)
    ensures Letter(k) != '\0' ==> IsSimple(Letter(k)) && SimpleKind(Letter(k)) == Some(k)
    ensures SimpleKind(c).Some? ==> Letter(SimpleKind(c).value) == c
    ensures QualifierFor(QualifierLetter(q)) == Some(q)
    ensures QualifierFor(c).Some? ==> QualifierLetter(QualifierFor(c).value) == c
  {
  }

  lemma QualsRecovered(quals: seq<Qualifier>)
    ensures QualSet(QualText(quals)) == (set q | q in quals)
  {
    var w := QualText(quals);
    forall k | 0 <= k < |quals| ensures QualifierFor(w[k]) == Some(quals[k]) {
      LettersInvert(w[k], Unknown, quals[k]);
    }
    forall q | q in quals ensures q in QualSet(w) {
      var k :| 0 <= k < |quals| && quals[k] == q;
      assert QualifierFor(w[k]) == Some(q);
    }
  }

  predicate Reads(s: string, x: Text, w: string) {
    x.Text? && x.start + x.length <= |s| && s[x.start..x.start + x.length] == w
  }

  lemma {:induction false} ReadsPart(s: string, i: nat, before: string, w: string, after: string)
    requires At(s, i, before + w + after)
    ensures Reads(s, Text(i + |before|, |w|), w)
  {
    AtSplit(s, i, before + w, after);
    AtSplit(s, i, before, w);
    AtIs(s, i + |before|, w);
  }

  /** A body's text around its element, and around its name. */
  lemma {:induction false} ElementIn(b: Body) returns (before: string, after: string)
    requires b.Pointer? || b.Array? || b.Complex? || b.VectorOf?
    ensures PrintBody(b) == before + Print(b.elem) + after
    ensures forall p: nat :: p > 0 ==> ElementText(b, p) == Text(p - 1 + |before|, |Print(b.elem)|)
  {
    match b
    case Pointer(n, e) => before, after := "^" + Carets(n), "";
    case Array(digits, e) => before, after := "[" + digits, "]";
    case Complex(e) => before, after := "j", "";
    case VectorOf(e) => before, after := "!", "";
  }

  lemma {:induction false} FieldsIn(b: Body) returns (before: string, after: string)
    requires b.Aggregate? && b.members.Some?
    ensures PrintBody(b) == before + PrintMembers(b.members.value) + after && |before| == |b.name| + 2
  {
    before, after := [b.open] + b.name + "=", [Close(b.open)];
  }

  lemma {:induction false} NameIn(b: Body) returns (before: string, after: string)
    requires b.Named? || b.Aggregate?
    ensures PrintBody(b) == before + b.name + after && |before| == if b.Named? then 2 else 1
  {
    match b
    case Named(name) => before, after := "@\"", "\"";
    case Aggregate(open, name, members) =>
      before := [open];
      after := if members.None? then [Close(open)] else "=" + (PrintMembers(members.value) + [Close(open)]);
  }

  /** The recorded places hold the texts of the tree's parts, and the depth is the number of carets. */
  lemma {:induction false} PartsAreRead(s: string, i: nat, t: Type)
    requires Good(t) && At(s, i, Print(t)) && !Clash(t, Char(s, i + |Print(t)|))
    ensures ParseType(s, i).Some?
    ensures var (x, b) := (ParseType(s, i).value.0, t.body);
            && Reads(s, x.source, Print(t))
            && x.depth == (if b.Pointer? then (b.extra + 1) % 0x1_0000_0000 else 0)
            && (b.Pointer? || b.Array? || b.Complex? || b.VectorOf? ==> Reads(s, x.element, Print(b.elem)))
            && (b.Named? || b.Aggregate? ==> Reads(s, x.name, b.name))
            && (b.Aggregate? && b.members.Some? ==> Reads(s, x.fields, PrintMembers(b.members.value)))
            && (b.Aggregate? && b.members.None? ==> x.fields == NoText)
  {
    hide At, AllOf, Good, Clash, PrintBody, PrintMembers, ParseType, ElementText, Reads;
    ParseInvertsPrint(s, i, t);
    var b, q := t.body, i + |QualText(t.quals)|;
    assert QualText(t.quals) + PrintBody(b) + "" == Print(t) == "" + Print(t) + "";
    ReadsPart(s, i, "", Print(t), "");
    AtSplit(s, i, QualText(t.quals), PrintBody(b));
    if b.Pointer? || b.Array? || b.Complex? || b.VectorOf? {
      var before, after := ElementIn(b);
      ReadsPart(s, q, before, Print(b.elem), after);
    }
    if b.Named? || b.Aggregate? {
      var before, after := NameIn(b);
      ReadsPart(s, q, before, b.name, after);
    }
    if b.Aggregate? && b.members.Some? {
      var before, after := FieldsIn(b);
      ReadsPart(s, q, before, PrintMembers(b.members.value), after);
    }
  }

  lemma {:induction false} WholeNumber(b: Body)
    requires GoodBody(b)
    ensures ParseType(PrintBody(b), 0).Some?
    ensures b.Array? ==> ParseType(PrintBody(b), 0).value.0.count == Decimal(b.digits) % 0x1_0000_0000_0000_0000
    ensures b.Bits? ==> ParseType(PrintBody(b), 0).value.0.bits == Decimal(b.digits) % 0x1_0000_0000_0000_0000
  {
    hide ParseType, Decimal, AllOf, PrintBody;
    var t := Type([], b);
    assert QualText([]) == "" && Print(t) == PrintBody(b);
    AloneParses(t);
  }

  /** An array of n elements and a bit-field of n bits, below 2^64. */
  lemma {:induction false} NumbersAreRead(n: nat, e: Type)
    requires Good(e)
    ensures ParseType("[" + (Numeral(n) + (Print(e) + "]")), 0).Some? && ParseType("b" + Numeral(n), 0).Some?
    ensures ParseType("[" + (Numeral(n) + (Print(e) + "]")), 0).value.0.count == n % 0x1_0000_0000_0000_0000
    ensures ParseType("b" + Numeral(n), 0).value.0.bits == n % 0x1_0000_0000_0000_0000
  {
    hide AllOf, ParseType, Numeral, Decimal, Good, Print;
    DecimalIsNumeral(n);
    WholeNumber(Array(Numeral(n), e));
    WholeNumber(Bits(Numeral(n)));
  }

  /** The parser reads a printed type whole, whatever unambiguous text follows it. */
  lemma {:induction false} ParseInvertsPrint(s: string, i: nat, t: Type)
    requires Good(t) && At(s, i, Print(t)) && !Clash(t, Char(s, i + |Print(t)|))
    ensures ParseType(s, i) == Some((Expect(t, i), i + |Print(t)|))
    decreases t, 3
  {
    hide At, AllOf, PrintBody, GoodBody, ParseBody, Clash, KindOf, ElementText;
    var b := PrintBody(t.body);
    AtSplit(s, i, QualText(t.quals), b);
    var q := i + |QualText(t.quals)|;
    AtChar(s, q, b, 0);
    FirstOf(t);
    RunIs(s, i, QualText(t.quals), IsQualifier);
    AtIs(s, i, QualText(t.quals));
    QualsRecovered(t.quals);
    BodyInverts(s, q + 1, t);
  }

  lemma AtIs(s: string, i: nat, w: string)
    requires At(s, i, w)
    ensures i + |w| <= |s| && s[i..i + |w|] == w
  {
  }

  /** The body's text and what may follow it. */
  predicate BodyAt(s: string, p: nat, t: Type) {
    p > 0 && Good(t) && At(s, p - 1, PrintBody(t.body)) && !Clash(t, Char(s, p - 1 + |PrintBody(t.body)|))
  }

  /** Which function reads which code. */
  lemma {:induction false} Dispatch(s: string, p: nat)
    requires p <= |s|
    ensures ParseBody(s, p, '@') == ParseObject(s, p) && ParseBody(s, p, '^') == ParsePointer(s, p)
    ensures ParseBody(s, p, '[') == ParseArray(s, p)
    ensures ParseBody(s, p, '{') == ParseStructOrUnion(s, p, '{')
            && ParseBody(s, p, '(') == ParseStructOrUnion(s, p, '(')
    ensures ParseBody(s, p, 'b') == ParseBitField(s, p) && ParseBody(s, p, 'j') == ParseElement(s, p, ComplexKind)
    ensures Char(s, p) == '[' ==> ParseBody(s, p, '!') == ParseElement(s, p, VectorKind)
  {
    hide ParseObject, ParsePointer, ParseArray, ParseStructOrUnion, ParseBitField, ParseElement;
  }

  lemma {:induction false} BodyInverts(s: string, p: nat, t: Type)
    requires BodyAt(s, p, t)
    ensures p <= |s| && ParseBody(s, p, Code(t.body)) == Some(PartsOf(t.body, p))
    decreases t, 2
  {
    assert GoodBody(t.body);
    AtChar(s, p - 1, PrintBody(t.body), 0);
    Dispatch(s, p);
    hide At, AllOf, PartsOf, Print, PrintBody, BodyAt, Clash, Good, ParseBody;
    match t.body
    case Simple(c) => ShortInverts(s, p, t);
    case Object => ShortInverts(s, p, t);
    case Named(name) => NamedInverts(s, p, t);
    case Block => ShortInverts(s, p, t);
    case Pointer(n, e) => PointerInverts(s, p, t);
    case Array(digits, e) => ArrayInverts(s, p, t);
    case Aggregate(open, name, members) => AggregateInverts(s, p, t);
    case Bits(digits) => BitsInverts(s, p, t);
    case Complex(e) => ElementInverts(s, p, t, "j", e);
    case Vector => ShortInverts(s, p, t);
    case VectorOf(e) =>
      FirstOf(e);
      ElementInverts(s, p, t, "!", e);
  }

  lemma {:induction false} ShortInverts(s: string, p: nat, t: Type)
    requires BodyAt(s, p, t) && (t.body.Simple? || t.body.Object? || t.body.Block? || t.body.Vector?)
    ensures p <= |s| && ParseBody(s, p, Code(t.body)) == Some(PartsOf(t.body, p))
  {
    assert GoodBody(t.body);
    AtChar(s, p - 1, PrintBody(t.body), 0);
    if t.body.Block? { AtChar(s, p - 1, PrintBody(t.body), 1); }
    SimpleIs(Code(t.body));
    hide At, AllOf;
  }

  lemma {:induction false} QuoteIs(s: string, i: nat, w: string)
    requires At(s, i, Quoted(w)) && AllOf(w, NotQuote)
    ensures i < |s| && s[i] == '"' && QuoteEnd(s, i) == Some(i + |w| + 2)
  {
    hide At, AllOf;
    assert Quoted(w) == "\"" + (w + "\"");
    AtChar(s, i, "\"" + (w + "\""), 0);
    AtSplit(s, i, "\"", w + "\"");
    AtSplit(s, i + 1, w, "\"");
    AtChar(s, i + 1 + |w|, "\"", 0);
    RunIs(s, i + 1, w, NotQuote);
  }

  lemma {:induction false} NamedInverts(s: string, p: nat, t: Type)
    requires BodyAt(s, p, t) && t.body.Named?
    ensures p <= |s| && ParseObject(s, p) == Some(PartsOf(t.body, p))
  {
    assert GoodBody(t.body);
    hide At, AllOf, QuoteEnd;
    AtSplit(s, p - 1, "@", Quoted(t.body.name));
    QuoteIs(s, p, t.body.name);
  }

  lemma {:induction false} CaretsAt(s: string, p: nat, n: nat, e: Type)
    requires p > 0 && At(s, p - 1, "^" + (Carets(n) + Print(e))) && Good(e) && (e.quals == [] ==> !e.body.Pointer?)
    ensures p + n < |s| && RunEnd(s, p, IsCaret) == p + n && At(s, p + n, Print(e))
  {
    hide At, Print, Good, AllOf;
    var carets := Carets(n);
    AtSplit(s, p - 1, "^", carets + Print(e));
    AtSplit(s, p, carets, Print(e));
    AtChar(s, p + n, Print(e), 0);
    FirstOf(e);
    RunIs(s, p, carets, IsCaret);
  }

  lemma {:induction false} PointerInverts(s: string, p: nat, t: Type)
    requires BodyAt(s, p, t) && t.body.Pointer?
    ensures p <= |s| && ParsePointer(s, p) == Some(PartsOf(t.body, p))
    decreases t, 1
  {
    var n, e := t.body.extra, t.body.elem;
    assert GoodBody(t.body);
    assert PrintBody(t.body) == "^" + (Carets(n) + Print(e));
    hide At, AllOf, Print, RunEnd, Good, ParseType;
    CaretsAt(s, p, n, e);
    ParseInvertsPrint(s, p + n, e);
  }

  lemma {:induction false} DigitsAt(s: string, p: nat, digits: string, e: Type)
    requires p > 0 && At(s, p - 1, "[" + (digits + (Print(e) + "]"))) && AllOf(digits, IsDigit) && Good(e)
    ensures var k := p + |digits|;
            && k + |Print(e)| < |s| && RunEnd(s, p, IsDigit) == k && s[p..k] == digits && At(s, k, Print(e))
              && s[k + |Print(e)|] == ']'
  {
    hide At, AllOf, Print, Good;
    var k := p + |digits|;
    AtSplit(s, p - 1, "[", digits + (Print(e) + "]"));
    AtSplit(s, p, digits, Print(e) + "]");
    AtIs(s, p, digits);
    AtSplit(s, k, Print(e), "]");
    AtChar(s, k, Print(e), 0);
    AtChar(s, k + |Print(e)|, "]", 0);
    FirstOf(e);
    RunIs(s, p, digits, IsDigit);
  }

  lemma ArrayBody(s: string, p: nat, t: Type)
    requires BodyAt(s, p, t) && t.body.Array?
    ensures p > 0 && AllOf(t.body.digits, IsDigit) && Good(t.body.elem)
    ensures At(s, p - 1, "[" + (t.body.digits + (Print(t.body.elem) + "]")))
    ensures var k := p + |t.body.digits|;
            PartsOf(t.body, p) == PLAIN.(kind := ArrayKind, count := Decimal(t.body.digits) % UINT64,
                                         element := Text(k, |Print(t.body.elem)|), end := k + |Print(t.body.elem)| + 1)
  {
    hide At, AllOf, Decimal, Clash;
    assert GoodBody(t.body);
  }

  lemma {:induction false} ArrayInverts(s: string, p: nat, t: Type)
    requires BodyAt(s, p, t) && t.body.Array?
    ensures p <= |s| && ParseArray(s, p) == Some(PartsOf(t.body, p))
    decreases t, 1
  {
    hide BodyAt, At, AllOf, Print, PrintBody, RunEnd, Good, GoodBody, ParseType, Decimal, ParseArray, PartsOf;
    var digits, e := t.body.digits, t.body.elem;
    ArrayBody(s, p, t);
    DigitsAt(s, p, digits, e);
    NoClash(e, ']');
    ParseInvertsPrint(s, p + |digits|, e);
    ArrayIs(s, p, p + |digits|);
  }

  lemma {:induction false} ArrayIs(s: string, p: nat, k: nat)
    requires p <= |s| && RunEnd(s, p, IsDigit) == k && ParseType(s, k).Some? && Char(s, ParseType(s, k).value.1) == ']'
    ensures ParseArray(s, p) == Some(PLAIN.(kind := ArrayKind, count := Decimal(s[p..k]) % UINT64,
                                            element := ParseType(s, k).value.0.source,
                                            end := ParseType(s, k).value.1 + 1))
  {
    hide ParseType, Decimal, AllOf;
  }

  /** Closing brackets never continue a type. */
  lemma {:induction false} NoClash(t: Type, c: char)
    requires !IsDigit(c) && c != '?' && c != '"' && c != '['
    ensures !Clash(t, c)
    decreases t
  {
    match t.body
    case Pointer(_, e) => NoClash(e, c);
    case Complex(e) => NoClash(e, c);
    case VectorOf(e) => NoClash(e, c);
    case _ =>
  }

  lemma {:induction false} BitsInverts(s: string, p: nat, t: Type)
    requires BodyAt(s, p, t) && t.body.Bits?
    ensures p <= |s| && ParseBitField(s, p) == Some(PartsOf(t.body, p))
  {
    assert GoodBody(t.body);
    hide At, AllOf, RunEnd;
    var digits := t.body.digits;
    AtSplit(s, p - 1, "b", digits);
    AtIs(s, p, digits);
    RunIs(s, p, digits, IsDigit);
  }

  lemma {:induction false} ElementInverts(s: string, p: nat, t: Type, code: string, e: Type)
    requires BodyAt(s, p, t) && PrintBody(t.body) == code + Print(e)
    requires (code == "j" && t.body == Complex(e)) || (code == "!" && t.body == VectorOf(e))
    ensures p < |s| && s[p] == Print(e)[0]
    ensures ParseElement(s, p, if code == "j" then ComplexKind else VectorKind) == Some(PartsOf(t.body, p))
    decreases t, 1
  {
    assert GoodBody(t.body);
    hide At, AllOf, Print, RunEnd, ParseType, PrintBody, Decimal;
    AtSplit(s, p - 1, code, Print(e));
    AtChar(s, p, Print(e), 0);
    FirstOf(e);
    ParseInvertsPrint(s, p, e);
  }

  lemma {:induction false} NameAt(s: string, p: nat, open: char, name: string, tail: string)
    requires p > 0 && At(s, p - 1, [open] + (name + tail)) && AllOf(name, NameChar(Close(open)))
    requires tail != "" && (tail[0] == '=' || tail[0] == Close(open))
    ensures var n := p + |name|;
            n < |s| && RunEnd(s, p, NameChar(Close(open))) == n && At(s, n, tail) && s[n] == tail[0]
  {
    hide At, AllOf;
    AtSplit(s, p - 1, [open], name + tail);
    AtSplit(s, p, name, tail);
    AtChar(s, p + |name|, tail, 0);
    RunIs(s, p, name, NameChar(Close(open)));
  }

  function TailOf(b: Body): string
    requires b.Aggregate?
  {
    if b.members.None? then [Close(b.open)] else "=" + (PrintMembers(b.members.value) + [Close(b.open)])
  }

  lemma AggregateBody(s: string, p: nat, t: Type)
    requires BodyAt(s, p, t) && t.body.Aggregate?
    ensures p > 0 && (t.body.open == '{' || t.body.open == '(') && AllOf(t.body.name, NameChar(Close(t.body.open)))
    ensures t.body.members.Some? ==> GoodMembers(t.body.members.value, Close(t.body.open))
    ensures At(s, p - 1, [t.body.open] + (t.body.name + TailOf(t.body)))
    ensures PartsOf(t.body, p) == PLAIN.(kind := if t.body.open == '{' then StructKind
            else UnionKind, name := Text(p, |t.body.name|),
                                         fields := if t.body.members.None? then NoText
                                           else Text(p + |t.body.name| + 1, |PrintMembers(t.body.members.value)|),
                                         end := p + |t.body.name| + |TailOf(t.body)|)
  {
    hide At, AllOf, PrintMembers, GoodMembers;
    assert GoodBody(t.body);
  }

  lemma {:induction false} AggregateInverts(s: string, p: nat, t: Type)
    requires BodyAt(s, p, t) && t.body.Aggregate?
    ensures p <= |s| && ParseStructOrUnion(s, p, t.body.open) == Some(PartsOf(t.body, p))
    decreases t, 1
  {
    hide BodyAt, At, AllOf, RunEnd, PrintMembers, ParseFields, ParseAggregate, GoodMembers, GoodBody, Good, PrintBody;
    hide PartsOf;
    var open, name, members := t.body.open, t.body.name, t.body.members;
    var close, n := Close(open), p + |name|;
    AggregateBody(s, p, t);
    NameAt(s, p, open, name, TailOf(t.body));
    if members.Some? {
      var w := PrintMembers(members.value);
      AtSplit(s, n, "=", w + [close]);
      AtSplit(s, n + 1, w, [close]);
      AtChar(s, n + 1 + |w|, [close], 0);
      AtIs(s, n + 1, w);
      MembersInvert(s, n + 1, members.value, close);
    }
    AggregateIs(s, p, n, close);
  }

  lemma {:induction false} AggregateIs(s: string, p: nat, n: nat, close: char)
    requires p <= n < |s| && RunEnd(s, p, NameChar(close)) == n && close != '\0' && close != '='
    ensures s[n] == close ==> ParseAggregate(s, p, close) == Some((Text(p, n - p), NoText, n + 1))
    ensures s[n] == '=' && ParseFields(s, n + 1, close).Some? ==>
              var f := ParseFields(s, n + 1, close).value;
              ParseAggregate(s, p, close) == Some((Text(p, n - p), Text(n + 1, f - n - 1), f + 1))
  {
    hide ParseFields, RunEnd;
  }

  lemma {:induction false} LabelsInvert(s: string, p: nat, labels: seq<string>)
    requires At(s, p, Labels(labels)) && GoodLabels(labels) && Char(s, p + |Labels(labels)|) != '"'
    ensures p + |Labels(labels)| <= |s| && LabelsEnd(s, p) == Some(p + |Labels(labels)|)
    decreases |labels|
  {
    hide AllOf, QuoteEnd;
    if labels != [] {
      AtSplit(s, p, Quoted(labels[0]), Labels(labels[1..]));
      QuoteIs(s, p, labels[0]);
      LabelsInvert(s, p + |Quoted(labels[0])|, labels[1..]);
    }
  }

  lemma {:induction false} LabelsStart(labels: seq<string>)
    requires labels != []
    ensures Labels(labels) != "" && Labels(labels)[0] == '"'
  {
  }

  lemma {:induction false} MembersInvert(s: string, p: nat, m: Members, close: char)
    requires GoodMembers(m, close) && (close == '}' || close == ')')
    requires At(s, p, PrintMembers(m)) && Char(s, p + |PrintMembers(m)|) == close
    ensures p <= |s| && ParseFields(s, p, close) == Some(p + |PrintMembers(m)|)
    decreases m, 4
  {
    hide At, AllOf, ParseType, Print, Labels, LabelsEnd, ParseFields, Clash, Good;
    AtIs(s, p, PrintMembers(m));
    match m
    case Last(labels) => LastInverts(s, p, labels, close);
    case Member(labels, t, rest) =>
      var q := p + |Labels(labels)|;
      MemberAt(s, p, labels, t, PrintMembers(rest), close);
      FirstCharIs(s, q + |Print(t)|, rest, close);
      ParseInvertsPrint(s, q, t);
      MembersInvert(s, q + |Print(t)|, rest, close);
      FieldsStep(s, p, q, close);
  }

  lemma {:induction false} LastInverts(s: string, p: nat, labels: seq<string>, close: char)
    requires GoodLabels(labels) && (close == '}' || close == ')')
    requires At(s, p, Labels(labels)) && Char(s, p + |Labels(labels)|) == close
    ensures p <= |s| && ParseFields(s, p, close) == Some(p + |Labels(labels)|)
  {
    hide At, AllOf, LabelsEnd, ParseType;
    assert Labels(labels) + "" == Labels(labels);
    LabelsAt(s, p, labels, "", close);
    LabelsInvert(s, p, labels);
  }

  lemma MemberAt(s: string, p: nat, labels: seq<string>, t: Type, tail: string, close: char)
    requires GoodLabels(labels) && Good(t)
    requires (close == '}' || close == ')') && At(s, p, Labels(labels) + (Print(t) + tail))
    ensures var q := p + |Labels(labels)|;
            && q < |s| && LabelsEnd(s, p) == Some(q) && Char(s, p) != close && Char(s, q) != close
            && At(s, q, Print(t)) && At(s, q + |Print(t)|, tail)
  {
    hide At, AllOf, LabelsEnd, Good, Print;
    var q := p + |Labels(labels)|;
    LabelsAt(s, p, labels, Print(t) + tail, close);
    AtSplit(s, p, Labels(labels), Print(t) + tail);
    AtSplit(s, q, Print(t), tail);
    AtChar(s, q, Print(t), 0);
    FirstOf(t);
    LabelsInvert(s, p, labels);
  }

  /** One round of the member loop: labels, then a type. */
  lemma {:induction false} FieldsStep(s: string, p: nat, q: nat, close: char)
    requires p <= q <= |s| && close != '\0' && Char(s, p) != close && LabelsEnd(s, p) == Some(q) && Char(s, q) != close
    ensures ParseFields(s, p, close) == (var e := ParseType(s, q); if e.None? then None
            else ParseFields(s, e.value.1, close))
  {
    hide ParseType, LabelsEnd;
  }

  /** Labels start with a quote; without labels, what follows them is next. */
  lemma {:induction false} LabelsAt(s: string, p: nat, labels: seq<string>, tail: string, close: char)
    requires At(s, p, Labels(labels) + tail)
    ensures labels != [] ==> Char(s, p) == '"'
    ensures labels == [] ==> Labels(labels) == ""
  {
    hide At;
    if labels != [] {
      LabelsStart(labels);
      AtChar(s, p, Labels(labels) + tail, 0);
    }
  }

  lemma NoLabels()
    ensures Labels([]) == ""
  {
  }

  lemma {:induction false} FirstCharIs(s: string, p: nat, m: Members, close: char)
    requires GoodMembers(m, close) && At(s, p, PrintMembers(m)) && Char(s, p + |PrintMembers(m)|) == close
    ensures Char(s, p) == FirstChar(m, close)
  {
    hide At, Print;
    if m.labels != [] { LabelsStart(m.labels); } else { NoLabels(); }
    if PrintMembers(m) != "" { AtChar(s, p, PrintMembers(m), 0); }
  }

  // ---------------------------------------------------------------- parsing, then printing

  /** `s[i..j]` is the printed `t`, and what follows does not continue it. */
  predicate Derives(s: string, i: nat, j: nat, t: Type) {
    Good(t) && At(s, i, Print(t)) && j == i + |Print(t)| && !Clash(t, Char(s, j))
  }

  predicate BodyDerives(s: string, p: nat, end: nat, b: Body) {
    && p > 0 && GoodBody(b) && At(s, p - 1, PrintBody(b)) && end == p - 1 + |PrintBody(b)|
    && !Clash(Type([], b), Char(s, end))
  }

  lemma SliceAt(s: string, i: nat, j: nat)
    requires i <= j <= |s|
    ensures At(s, i, s[i..j])
  {
  }

  lemma OneAt(s: string, i: nat)
    requires i < |s|
    ensures At(s, i, [s[i]])
  {
  }

  /** Everything the parser accepts is a printed type. */
  /** The qualifiers of a run of their letters. */
  lemma QualsIn(w: string) returns (quals: seq<Qualifier>)
    requires AllOf(w, IsQualifier)
    ensures QualText(quals) == w
  {
    forall k | 0 <= k < |w| ensures QualifierFor(w[k]).Some? {
      assert IsQualifier(w[k]);
    }
    quals := seq(|w|, k requires 0 <= k < |w| => QualifierFor(w[k]).value);
    forall k | 0 <= k < |w| ensures QualText(quals)[k] == w[k] {
      LettersInvert(w[k], Unknown, Const);
    }
  }

  lemma {:induction false} TreeOf(s: string, i: nat) returns (t: Type)
    requires ParseType(s, i).Some?
    ensures Derives(s, i, ParseType(s, i).value.1, t)
    decreases |s| - i, 2
  {
    hide At, AllOf, PrintBody, GoodBody, ParseBody;
    var q := RunEnd(s, i, IsQualifier);
    var b := BodyOf(s, q + 1, s[q]);
    var quals := QualsIn(s[i..q]);
    t := Type(quals, b);
    SliceAt(s, i, q);
    AtJoin(s, i, s[i..q], PrintBody(b));
  }

  lemma {:induction false} BodyOf(s: string, p: nat, code: char) returns (b: Body)
    requires 0 < p <= |s| && s[p - 1] == code && ParseBody(s, p, code).Some?
    ensures BodyDerives(s, p, ParseBody(s, p, code).value.end, b)
    decreases |s| - p, 4
  {
    hide At, AllOf, ParseObject, ParsePointer, ParseArray, ParseStructOrUnion, ParseBitField, ParseElement, SimpleKind;
    OneAt(s, p - 1);
    SimpleIs(code);
    if SimpleKind(code).Some? {
      b := Simple(SimpleKind(code).value);
      LettersInvert(code, Unknown, Const);
    } else if code == '@' {
      b := ObjectOf(s, p);
    } else if code == '^' {
      b := PointerOf(s, p);
    } else if code == '[' {
      b := ArrayOf(s, p);
    } else if code == '{' || code == '(' {
      b := AggregateOf(s, p, code);
    } else if code == 'b' {
      b := BitsOf(s, p);
    } else if code == 'j' {
      b := ComplexOf(s, p);
    } else if Char(s, p) != '[' {
      b := Vector;
    } else {
      b := VectorWith(s, p);
    }
  }

  lemma QuoteOf(s: string, i: nat) returns (w: string)
    requires i < |s| && s[i] == '"' && QuoteEnd(s, i).Some?
    ensures AllOf(w, NotQuote) && At(s, i, Quoted(w)) && i + |w| + 2 == QuoteEnd(s, i).value
  {
    var q := RunEnd(s, i + 1, NotQuote);
    w := s[i + 1..q];
    assert s[i..q + 1] == "\"" + w + "\"";
  }

  lemma {:induction false} ObjectOf(s: string, p: nat) returns (b: Body)
    requires 0 < p <= |s| && s[p - 1] == '@' && ParseObject(s, p).Some?
    ensures BodyDerives(s, p, ParseObject(s, p).value.end, b)
  {
    hide AllOf, QuoteEnd;
    if Char(s, p) == '?' {
      b := Block;
      assert s[p - 1..p + 1] == "@?";
    } else if Char(s, p) == '"' {
      var w := QuoteOf(s, p);
      b := Named(w);
      OneAt(s, p - 1);
      AtJoin(s, p - 1, "@", Quoted(w));
    } else {
      b := Object;
      OneAt(s, p - 1);
    }
  }

  lemma {:induction false} PointerOf(s: string, p: nat) returns (b: Body)
    requires 0 < p <= |s| && s[p - 1] == '^' && ParsePointer(s, p).Some?
    ensures BodyDerives(s, p, ParsePointer(s, p).value.end, b)
    decreases |s| - p, 3
  {
    hide At, AllOf, Good, ParseType, Print, Clash, BodyDerives, Carets;
    var k := RunEnd(s, p, IsCaret);
    var e := TreeOf(s, k);
    AllCarets(s[p..k]);
    PointerDerives(s, p, k, e);
    b := Pointer(k - p, e);
  }

  lemma {:induction false} PointerDerives(s: string, p: nat, k: nat, e: Type)
    requires 0 < p <= k <= |s| && s[p - 1] == '^' && s[p..k] == Carets(k - p) && !(k < |s| && IsCaret(s[k]))
    requires Derives(s, k, k + |Print(e)|, e)
    ensures BodyDerives(s, p, k + |Print(e)|, Pointer(k - p, e))
  {
    FirstOf(e);
    AtChar(s, k, Print(e), 0);
    hide At, Good, Carets, Print;
    OneAt(s, p - 1);
    SliceAt(s, p, k);
    AtJoin(s, p, Carets(k - p), Print(e));
    AtJoin(s, p - 1, "^", Carets(k - p) + Print(e));
  }

  lemma AllCarets(w: string)
    requires AllOf(w, IsCaret)
    ensures w == Carets(|w|)
  {
    forall k | 0 <= k < |w| ensures w[k] == '^' { assert IsCaret(w[k]); }
  }

  lemma {:induction false} ArrayOf(s: string, p: nat) returns (b: Body)
    requires 0 < p <= |s| && s[p - 1] == '[' && ParseArray(s, p).Some?
    ensures BodyDerives(s, p, ParseArray(s, p).value.end, b)
    decreases |s| - p, 3
  {
    hide AllOf, Good, ParseType, Print, At;
    var k := RunEnd(s, p, IsDigit);
    var e := TreeOf(s, k);
    b := Array(s[p..k], e);
    OneAt(s, p - 1);
    SliceAt(s, p, k);
    OneAt(s, k + |Print(e)|);
    AtJoin(s, k, Print(e), "]");
    AtJoin(s, p, s[p..k], Print(e) + "]");
    AtJoin(s, p - 1, "[", s[p..k] + (Print(e) + "]"));
  }

  lemma {:induction false} BitsOf(s: string, p: nat) returns (b: Body)
    requires 0 < p <= |s| && s[p - 1] == 'b' && ParseBitField(s, p).Some?
    ensures BodyDerives(s, p, ParseBitField(s, p).value.end, b)
  {
    hide AllOf, At;
    var k := RunEnd(s, p, IsDigit);
    b := Bits(s[p..k]);
    OneAt(s, p - 1);
    SliceAt(s, p, k);
    AtJoin(s, p - 1, "b", s[p..k]);
  }

  lemma {:induction false} ComplexOf(s: string, p: nat) returns (b: Body)
    requires 0 < p <= |s| && s[p - 1] == 'j' && ParseElement(s, p, ComplexKind).Some?
    ensures BodyDerives(s, p, ParseElement(s, p, ComplexKind).value.end, b)
    decreases |s| - p, 3
  {
    hide AllOf, At, Good, Print, ParseType;
    var e := TreeOf(s, p);
    b := Complex(e);
    OneAt(s, p - 1);
    AtJoin(s, p - 1, "j", Print(e));
  }

  lemma {:induction false} VectorWith(s: string, p: nat) returns (b: Body)
    requires 0 < p < |s| && s[p - 1] == '!' && s[p] == '[' && ParseElement(s, p, VectorKind).Some?
    ensures BodyDerives(s, p, ParseElement(s, p, VectorKind).value.end, b)
    decreases |s| - p, 3
  {
    hide AllOf, At, Good, Print, ParseType;
    var e := TreeOf(s, p);
    b := VectorOf(e);
    FirstOf(e);
    AtChar(s, p, Print(e), 0);
    OneAt(s, p - 1);
    AtJoin(s, p - 1, "!", Print(e));
  }

  lemma {:induction false} AggregateOf(s: string, p: nat, code: char) returns (b: Body)
    requires 0 < p <= |s| && s[p - 1] == code && (code == '{' || code == '(') && ParseStructOrUnion(s, p, code).Some?
    ensures BodyDerives(s, p, ParseStructOrUnion(s, p, code).value.end, b)
    decreases |s| - p, 3
  {
    hide At, ParseFields, GoodMembers, PrintMembers;
    var n := RunEnd(s, p, NameChar(Close(code)));
    AggregateParts(s, p, Close(code));
    if s[n] == Close(code) {
      b := Aggregate(code, s[p..n], None);
      EmptyDerives(s, p, n, code);
    } else {
      var m := MembersOf(s, n + 1, Close(code));
      b := Aggregate(code, s[p..n], Some(m));
      MembersDerive(s, p, n, code, m);
    }
    hide AllOf, BodyDerives, ParseAggregate, RunEnd;
  }

  lemma EmptyDerives(s: string, p: nat, n: nat, code: char)
    requires 0 < p <= n < |s| && s[p - 1] == code && (code == '{' || code == '(')
    requires AllOf(s[p..n], NameChar(Close(code))) && s[n] == Close(code)
    ensures BodyDerives(s, p, n + 1, Aggregate(code, s[p..n], None))
  {
    hide AllOf, At;
    SliceAt(s, p, n);
    OneAt(s, n);
    AggregateDerives(s, p, Aggregate(code, s[p..n], None), [s[n]]);
  }

  lemma {:induction false} MembersDerive(s: string, p: nat, n: nat, code: char, m: Members)
    requires 0 < p <= n < |s| && s[p - 1] == code && (code == '{' || code == '(')
    requires AllOf(s[p..n], NameChar(Close(code))) && s[n] == '='
    requires GoodMembers(m, Close(code)) && At(s, n + 1, PrintMembers(m)) && n + 1 + |PrintMembers(m)| < |s|
    requires s[n + 1 + |PrintMembers(m)|] == Close(code)
    ensures BodyDerives(s, p, n + |PrintMembers(m)| + 2, Aggregate(code, s[p..n], Some(m)))
  {
    hide AllOf, At, PrintMembers, GoodMembers;
    var w, close := PrintMembers(m), Close(code);
    SliceAt(s, p, n);
    OneAt(s, n);
    OneAt(s, n + 1 + |w|);
    AtJoin(s, n + 1, w, [close]);
    AtJoin(s, n, "=", w + [close]);
    AggregateDerives(s, p, Aggregate(code, s[p..n], Some(m)), "=" + (w + [close]));
  }

  lemma {:induction false} AggregateDerives(s: string, p: nat, b: Body, tail: string)
    requires b.Aggregate? && GoodBody(b) && 0 < p <= |s| && s[p - 1] == b.open
    requires PrintBody(b) == [b.open] + (b.name + tail) && At(s, p, b.name) && At(s, p + |b.name|, tail)
    ensures BodyDerives(s, p, p + |b.name| + |tail|, b)
  {
    hide AllOf, At, GoodBody, PrintBody;
    OneAt(s, p - 1);
    AtJoin(s, p, b.name, tail);
    AtJoin(s, p - 1, [b.open], b.name + tail);
  }

  lemma {:induction false} AggregateParts(s: string, p: nat, close: char)
    requires p <= |s| && (close == '}' || close == ')') && ParseAggregate(s, p, close).Some?
    ensures var (n, end) := (RunEnd(s, p, NameChar(close)), ParseAggregate(s, p, close).value.2);
            && n < |s|
            && (s[n] == close ==> end == n + 1)
            && (s[n] != close ==>
              s[n] == '=' && ParseFields(s, n + 1, close).Some? && end == ParseFields(s, n + 1, close).value + 1)
  {
    hide ParseFields;
  }

  lemma {:induction false} LabelsOf(s: string, p: nat) returns (labels: seq<string>)
    requires p <= |s| && LabelsEnd(s, p).Some?
    ensures GoodLabels(labels) && At(s, p, Labels(labels)) && p + |Labels(labels)| == LabelsEnd(s, p).value
    ensures labels == [] <==> Char(s, p) != '"'
    decreases |s| - p
  {
    hide AllOf, QuoteEnd;
    if Char(s, p) != '"' {
      labels := [];
      SliceAt(s, p, p);
    } else {
      var w := QuoteOf(s, p);
      var rest := LabelsOf(s, QuoteEnd(s, p).value);
      labels := [w] + rest;
      assert labels[1..] == rest;
      AtJoin(s, p, Quoted(w), Labels(rest));
    }
  }

  lemma {:induction false} MembersOf(s: string, p: nat, close: char) returns (m: Members)
    requires p <= |s| && (close == '}' || close == ')') && ParseFields(s, p, close).Some?
    ensures GoodMembers(m, close) && At(s, p, PrintMembers(m))
    ensures p + |PrintMembers(m)| == ParseFields(s, p, close).value
    ensures FirstChar(m, close) == Char(s, p)
    decreases |s| - p, 5
  {
    hide AllOf, At, ParseType, Good, Print, Labels, LabelsEnd;
    if Char(s, p) == close {
      m := Last([]);
      NoLabels();
      SliceAt(s, p, p);
      return;
    }
    var labels := LabelsOf(s, p);
    var l := LabelsEnd(s, p);
    if Char(s, l.value) == close {
      m := Last(labels);
      if labels == [] { NoLabels(); }
    } else {
      var t := TreeOf(s, l.value);
      var next := ParseType(s, l.value).value.1;
      var rest := MembersOf(s, next, close);
      m := Member(labels, t, rest);
      AtChar(s, l.value, Print(t), 0);
      if labels == [] { NoLabels(); }
      AtJoin(s, l.value, Print(t), PrintMembers(rest));
      AtJoin(s, p, Labels(labels), Print(t) + PrintMembers(rest));
    }
  }

  // ---------------------------------------------------------------- main results

  /** The parser accepts at `i` exactly when a printed type stands there, and then reports it. */
  lemma {:induction false} ParsesExactlyPrinted(s: string, i: nat)
    ensures ParseType(s, i).Some? <==> exists j, t :: Derives(s, i, j, t)
    ensures forall j, t :: Derives(s, i, j, t) ==> ParseType(s, i) == Some((Expect(t, i), j))
  {
    forall j, t | Derives(s, i, j, t) ensures ParseType(s, i) == Some((Expect(t, i), j)) {
      ParseInvertsPrint(s, i, t);
    }
    if ParseType(s, i).Some? {
      var t := TreeOf(s, i);
      assert Derives(s, i, ParseType(s, i).value.1, t);
    }
  }

  function Moved(x: Text, from: nat, to: nat): Text {
    if x.NoText? || x.start < from then x else Text(x.start - from + to, x.length)
  }

  /** The same encoding found elsewhere. */
  function Rebased(e: Encoding, from: nat, to: nat): Encoding {
    e.(source := Moved(e.source, from, to), name := Moved(e.name, from, to),
       element := Moved(e.element, from, to), fields := Moved(e.fields, from, to))
  }

  /** Parsing the source slice of any accepted type alone gives the same result and uses all of it. */
  lemma {:induction false} SliceReparses(s: string, i: nat)
    requires ParseType(s, i).Some?
    ensures var (e, j) := ParseType(s, i).value;
            e.source == Text(i, j - i) && ParseType(s[i..j], 0) == Some((Rebased(e, i, 0), j - i))
  {
    hide Expect, ParseType, Good, Print;
    var t := TreeOf(s, i);
    var j := ParseType(s, i).value.1;
    ParseInvertsPrint(s, i, t);
    AtIs(s, i, Print(t));
    AloneParses(t);
    ExpectMoves(t, i);
  }

  lemma {:induction false} AloneParses(t: Type)
    requires Good(t)
    ensures ParseType(Print(t), 0) == Some((Expect(t, 0), |Print(t)|))
  {
    hide Print, Good, Clash;
    assert Print(t)[0..|Print(t)|] == Print(t);
    NoClash(t, '\0');
    ParseInvertsPrint(Print(t), 0, t);
  }

  lemma {:induction false} ExpectMoves(t: Type, i: nat)
    requires Good(t)
    ensures Expect(t, 0) == Rebased(Expect(t, i), i, 0) && Expect(t, i).source == Text(i, |Print(t)|)
  {
    hide PrintBody, PrintMembers, Decimal;
  }

  /** The recorded element of a pointer, array, complex or vector is itself an accepted type there. */
  lemma {:induction false} ElementReparses(s: string, i: nat)
    requires ParseType(s, i).Some? && ParseType(s, i).value.0.element.Text?
    ensures var x := ParseType(s, i).value.0.element;
            && x.start > i && x.start + x.length <= |s| && ParseType(s, x.start).Some?
            && ParseType(s[x.start..x.start + x.length],
              0) == Some((Rebased(ParseType(s, x.start).value.0, x.start, 0), x.length))
  {
    var k := ElementAt(s, i);
    SliceReparses(s, k);
  }

  lemma ElementAt(s: string, i: nat) returns (k: nat)
    requires ParseType(s, i).Some? && ParseType(s, i).value.0.element.Text?
    ensures i < k && ParseType(s, k).Some? && ParseType(s, i).value.0.element == Text(k, ParseType(s, k).value.1 - k)
  {
    hide ParseBody;
    var q := RunEnd(s, i, IsQualifier);
    k := ElementOf(s, q + 1, s[q]);
  }

  lemma ElementOf(s: string, p: nat, code: char) returns (k: nat)
    requires p <= |s| && ParseBody(s, p, code).Some? && ParseBody(s, p, code).value.element.Text?
    ensures p <= k && ParseType(s, k).Some?
    ensures ParseBody(s, p, code).value.element == Text(k, ParseType(s, k).value.1 - k)
  {
    k := if code == '^' then RunEnd(s, p, IsCaret) else if code == '[' then RunEnd(s, p, IsDigit) else p;
    SourceIs(s, k);
    hide ParseType, ParseAggregate, RunEnd;
  }

  lemma {:induction false} SourceIs(s: string, i: nat)
    ensures ParseType(s, i).Some? ==> ParseType(s, i).value.0.source == Text(i, ParseType(s, i).value.1 - i)
  {
  }

  // ---------------------------------------------------------------- the letters

  /** The kind a whole text is read as. */
  function KindAt(w: string): Option<Kind> {
    if ParseType(w, 0).Some? && ParseType(w, 0).value.1 == |w| then Some(ParseType(w, 0).value.0.kind) else None
  }

  function QualsAt(w: string): set<Qualifier> {
    if ParseType(w, 0).Some? then ParseType(w, 0).value.0.quals else {}
  }

  lemma {:induction false} WholeInverts(t: Type)
    requires Good(t)
    ensures ParseType(Print(t), 0) == Some((Expect(t, 0), |Print(t)|))
  {
    NoClash(t, '\0');
    ParseInvertsPrint(Print(t), 0, t);
  }

  lemma {:induction false} LetterKind(k: Kind)
    requires Letter(k) != '\0'
    ensures KindAt([Letter(k)]) == Some(k)
  {
    hide ParseType;
    assert QualText([]) == [] && Print(Type([], Simple(k))) == [Letter(k)];
    WholeInverts(Type([], Simple(k)));
  }

  /** The letters of the integer kinds. */
  lemma IntegersMean()
    ensures KindAt("c") == Some(SignedChar) && KindAt("C") == Some(UnsignedChar)
    ensures KindAt("s") == Some(Short) && KindAt("S") == Some(UnsignedShort)
    ensures KindAt("i") == Some(Int) && KindAt("I") == Some(UnsignedInt)
    ensures KindAt("l") == Some(Long) && KindAt("L") == Some(UnsignedLong)
    ensures KindAt("q") == Some(LongLong) && KindAt("Q") == Some(UnsignedLongLong)
  {
    hide KindAt, ParseType;
    LetterKind(SignedChar); LetterKind(UnsignedChar); LetterKind(Short); LetterKind(UnsignedShort); LetterKind(Int);
    LetterKind(UnsignedInt); LetterKind(Long); LetterKind(UnsignedLong); LetterKind(LongLong);
    LetterKind(UnsignedLongLong);
  }

  /** The other letters that are types of their own. */
  lemma LettersMean()
    ensures KindAt("v") == Some(Void) && KindAt("B") == Some(Boolean) && KindAt("?") == Some(Unknown)
    ensures KindAt("f") == Some(Float) && KindAt("d") == Some(Double) && KindAt("D") == Some(LongDouble)
    ensures KindAt("*") == Some(CharPointer) && KindAt("#") == Some(ClassKind) && KindAt(":") == Some(SelectorKind)
  {
    hide KindAt, ParseType;
    LetterKind(Void); LetterKind(Boolean); LetterKind(Unknown); LetterKind(Float); LetterKind(Double);
    LetterKind(LongDouble); LetterKind(CharPointer); LetterKind(ClassKind); LetterKind(SelectorKind);
  }

  lemma {:induction false} BodyKind(b: Body, w: string)
    requires GoodBody(b) && PrintBody(b) == w
    ensures KindAt(w) == Some(KindOf(b))
  {
    hide ParseType;
    var t := Type([], b);
    assert QualText([]) == [] && Print(t) == w;
    WholeInverts(t);
  }

  /** What each other code begins. */
  lemma CodesMean()
    ensures KindAt("@") == Some(ObjectKind) && KindAt("@\"N\"") == Some(ObjectKind) && KindAt("@?") == Some(BlockKind)
    ensures KindAt("{S}") == Some(StructKind) && KindAt("(S)") == Some(UnionKind)
    ensures KindAt("b3") == Some(BitFieldKind) && KindAt("!") == Some(VectorKind)
  {
    hide KindAt, ParseType;
    BodyKind(Object, "@");
    BodyKind(Named("N"), "@\"N\"");
    BodyKind(Block, "@?");
    BodyKind(Aggregate('{', "S", None), "{S}");
    BodyKind(Aggregate('(', "S", None), "(S)");
    BodyKind(Bits("3"), "b3");
    BodyKind(Vector, "!");
  }

  lemma ElementsMean()
    ensures KindAt("^v") == Some(PointerKind) && KindAt("[4v]") == Some(ArrayKind)
    ensures KindAt("jv") == Some(ComplexKind) && KindAt("![4v]") == Some(VectorKind)
  {
    hide KindAt, ParseType;
    var v := Type([], Simple(Void));
    assert QualText([]) == [] && Print(v) == "v" && Carets(0) == "";
    BodyKind(Pointer(0, v), "^v");
    BodyKind(Array("4", v), "[4v]");
    BodyKind(Complex(v), "jv");
    var a := Type([], Array("4", v));
    assert Print(a) == "[4v]";
    BodyKind(VectorOf(a), "![4v]");
  }

  lemma {:induction false} LetterQualifier(q: Qualifier)
    ensures QualsAt([QualifierLetter(q), 'v']) == {q}
  {
    hide ParseType;
    var t := Type([q], Simple(Void));
    assert QualText([q]) == [QualifierLetter(q)] && Print(t) == [QualifierLetter(q), 'v'];
    WholeInverts(t);
  }

  lemma QualifiersMean()
    ensures QualsAt("rv") == {Const} && QualsAt("nv") == {In} && QualsAt("Nv") == {InOut} && QualsAt("ov") == {Out}
    ensures QualsAt("Ov") == {ByCopy} && QualsAt("Rv") == {ByRef} && QualsAt("Vv") == {OneWay}
    ensures QualsAt("Av") == {Atomic}
  {
    hide QualsAt;
    LetterQualifier(Const); LetterQualifier(In); LetterQualifier(InOut); LetterQualifier(Out);
    LetterQualifier(ByCopy); LetterQualifier(ByRef); LetterQualifier(OneWay); LetterQualifier(Atomic);
  }
}

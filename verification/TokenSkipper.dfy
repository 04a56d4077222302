/** The dispatcher's own reader of type encodings: it steps over a type by counting brackets of one
    kind. It agrees with the parser on the common part of the language. */
module TokenSkipper {

  import opened Wrappers
  import opened EncodingSyntax
  import opened EncodingParser
  import opened EncodingLanguage
  import opened EncodingLoops

  const MAX_CODES: nat := 4

  predicate IsCommonQualifier(c: char) {
    IsQualifier(c) && c != 'A'
  }

  /** From inside `d` brackets to just after the one that closes them all, or to the end of the text. */
  function Scan(s: string, p: nat, d: nat, open: char, close: char): (q: nat)
    requires p <= |s|
    ensures p <= q <= |s|
    decreases |s| - p
  {
    if Char(s, p) == '\0' || d == 0 then p
    else Scan(s, p + 1, if s[p] == open then d + 1 else if s[p] == close then d - 1 else d, open, close)
  }

  function SkipEnd(s: string, p: nat): (q: nat)
    requires p <= |s|
    ensures p <= q <= |s| && (Char(s, p) != '\0' ==> p < q)
    decreases |s| - p
  {
    var q := RunEnd(s, p, IsCommonQualifier);
    if Char(s, q) == '^' then SkipEnd(s, q + 1)
    else if Char(s, q) == '{' then Scan(s, q + 1, 1, '{', '}')
    else if Char(s, q) == '(' then Scan(s, q + 1, 1, '(', ')')
    else if Char(s, q) == '[' then Scan(s, q + 1, 1, '[', ']')
    else if Char(s, q) == '@' then
      if Char(s, q + 1) == '?' then q + 2
      else if Char(s, q + 1) == '"' then
        var r := RunEnd(s, q + 2, NotQuote);
        if Char(s, r) == '"' then r + 1 else r
      else q + 1
    else if Char(s, q) != '\0' then q + 1
    else q
  }

  /** The character after the qualifiers. */
  function PrimaryCode(s: string, p: nat): char {
    Char(s, RunEnd(s, p, IsCommonQualifier))
  }

  // ---------------------------------------------------------------- the loops

  method SkipBrackets(s: string, start: nat, open: char, close: char) returns (p: nat)
    requires start <= |s|
    ensures p == Scan(s, start, 1, open, close)
  {
    var depth := 1;
    p := start;
    while Char(s, p) != '\0' && depth > 0
      invariant start <= p <= |s| && depth >= 0 && Scan(s, p, depth, open, close) == Scan(s, start, 1, open, close)
      decreases |s| - p
    {
      if s[p] == open {
        depth := depth + 1;
      } else if s[p] == close {
        depth := depth - 1;
      }
      p := p + 1;
    }
  }

  method SkipQualifiers(s: string, start: nat) returns (p: nat)
    requires start <= |s|
    ensures p == RunEnd(s, start, IsCommonQualifier)
  {
    p := start;
    while Char(s, p) != '\0' && IsCommonQualifier(Char(s, p))
      invariant start <= p <= |s| && RunEnd(s, p, IsCommonQualifier) == RunEnd(s, start, IsCommonQualifier)
      decreases |s| - p
    {
      p := p + 1;
    }
  }

  method SkipClassName(s: string, start: nat) returns (p: nat)
    requires start <= |s|
    ensures p == if Char(s, start) != '"' then start else
                 var r := RunEnd(s, start + 1, NotQuote); if Char(s, r) == '"' then r + 1 else r
  {
    p := start;
    if Char(s, p) == '"' {
      p := p + 1;
      while Char(s, p) != '\0' && Char(s, p) != '"'
        invariant start < p <= |s| && RunEnd(s, p, NotQuote) == RunEnd(s, start + 1, NotQuote)
        decreases |s| - p
      {
        p := p + 1;
      }
      if Char(s, p) == '"' {
        p := p + 1;
      }
    }
  }

  /** skip_type_token. */
  method SkipTypeToken(s: string, start: nat) returns (p: nat)
    requires start <= |s|
    ensures p == SkipEnd(s, start)
    decreases |s| - start
  {
    hide RunEnd, Scan;
    p := SkipQualifiers(s, start);
    if Char(s, p) == '^' {
      p := SkipTypeToken(s, p + 1);
    } else if Char(s, p) == '{' {
      p := SkipBrackets(s, p + 1, '{', '}');
    } else if Char(s, p) == '(' {
      p := SkipBrackets(s, p + 1, '(', ')');
    } else if Char(s, p) == '[' {
      p := SkipBrackets(s, p + 1, '[', ']');
    } else if Char(s, p) == '@' && Char(s, p + 1) == '?' {
      p := p + 2;
    } else if Char(s, p) == '@' {
      p := SkipClassName(s, p + 1);
    } else if Char(s, p) != '\0' {
      p := p + 1;
    }
  }

  /** primary_type_code. */
  method PrimaryTypeCode(s: string, start: nat) returns (c: char)
    requires start <= |s|
    ensures c == PrimaryCode(s, start)
  {
    var p := SkipQualifiers(s, start);
    if Char(s, p) == '^' {
      return '^';
    }
    c := Char(s, p);
  }

  // ---------------------------------------------------------------- the common part of the language

  predicate NoBrackets(w: string) {
    forall k :: 0 <= k < |w| ==> !IsBracket(w[k]) && w[k] != '\0'
  }

  predicate IsBracket(c: char) {
    c == '{' || c == '}' || c == '(' || c == ')' || c == '[' || c == ']'
  }

  /** No bracket inside a name or a label. */
  predicate Plain(t: Type) {
    PlainParts(t.body)
  }

  predicate PlainParts(b: Body) {
    match b
    case Named(name) => NoBrackets(name)
    case Pointer(_, e) => Plain(e)
    case Array(_, e) => Plain(e)
    case Aggregate(_, name, members) => NoBrackets(name) && (members.Some? ==> PlainMembers(members.value))
    case Complex(e) => Plain(e)
    case VectorOf(e) => Plain(e)
    case _ => true
  }

  predicate PlainMembers(m: Members) {
    && (forall k :: 0 <= k < |m.labels| ==> NoBrackets(m.labels[k]))
    && (m.Member? ==> Plain(m.first) && PlainMembers(m.rest))
  }

  /** The types the skipper steps over whole: outside brackets there is no atomic qualifier, no width of a
      bit-field, no complex number and no vector with an element. */
  predicate Skips(t: Type) {
    AllOf(QualText(t.quals), IsCommonQualifier) && SkipsParts(t.body)
  }

  predicate SkipsParts(b: Body) {
    match b
    case Pointer(_, e) => Skips(e)
    case Bits(digits) => digits == ""
    case Complex(_) => false
    case VectorOf(_) => false
    case _ => true
  }

  /** The three kinds of bracket the scan is used with. */
  predicate IsPair(open: char, close: char) {
    (open == '{' && close == '}') || (open == '(' && close == ')') || (open == '[' && close == ']')
  }

  lemma {:induction false} ScanPlain(s: string, p: nat, w: string, d: nat, open: char, close: char)
    requires At(s, p, w) && NoBrackets(w) && IsPair(open, close) && d > 0
    ensures p + |w| <= |s| && Scan(s, p, d, open, close) == Scan(s, p + |w|, d, open, close)
    decreases |w|
  {
    if w != "" {
      AtChar(s, p, w, 0);
      assert w == [w[0]] + w[1..];
      AtSplit(s, p, [w[0]], w[1..]);
      assert !IsBracket(w[0]);
      forall k | 0 <= k < |w[1..]| ensures !IsBracket(w[1..][k])
        && w[1..][k] != '\0' { assert !IsBracket(w[k + 1]) && w[k + 1] != '\0'; }
      ScanPlain(s, p + 1, w[1..], d, open, close);
    }
  }

  lemma NoBracketRuns(w: string)
    ensures AllOf(w, IsQualifier) ==> NoBrackets(w)
    ensures AllOf(w, IsDigit) ==> NoBrackets(w)
    ensures AllOf(w, IsCaret) ==> NoBrackets(w)
    ensures NoBrackets(w) ==> NoBrackets(Quoted(w))
  {
    if AllOf(w, IsQualifier) { forall k | 0 <= k < |w| ensures !IsBracket(w[k])
      && w[k] != '\0' { assert IsQualifier(w[k]); } }
    if AllOf(w, IsDigit) { forall k | 0 <= k < |w| ensures !IsBracket(w[k]) && w[k] != '\0' { assert IsDigit(w[k]); } }
    if AllOf(w, IsCaret) { forall k | 0 <= k < |w| ensures !IsBracket(w[k]) && w[k] != '\0' { assert IsCaret(w[k]); } }
    if NoBrackets(w) {
      forall k | 0 <= k < |Quoted(w)| ensures !IsBracket(Quoted(w)[k]) && Quoted(w)[k] != '\0' {
        if 0 < k <= |w| { assert Quoted(w)[k] == w[k - 1]; }
      }
    }
  }

  lemma PlainJoin(a: string, b: string)
    requires NoBrackets(a) && NoBrackets(b)
    ensures NoBrackets(a + b)
  {
  }

  lemma {:induction false} PlainLabels(labels: seq<string>)
    requires forall k :: 0 <= k < |labels| ==> NoBrackets(labels[k])
    ensures NoBrackets(Labels(labels))
    decreases |labels|
  {
    if labels != [] {
      NoBracketRuns(labels[0]);
      PlainLabels(labels[1..]);
      PlainJoin(Quoted(labels[0]), Labels(labels[1..]));
    }
  }

  /** Inside brackets a printed type leaves the depth as it was. */
  lemma {:induction false} ScanType(s: string, p: nat, t: Type, d: nat, open: char, close: char)
    requires Good(t) && Plain(t) && At(s, p, Print(t)) && IsPair(open, close) && d > 0
    ensures p + |Print(t)| <= |s| && Scan(s, p, d, open, close) == Scan(s, p + |Print(t)|, d, open, close)
    decreases t, 3
  {
    hide At, AllOf, Scan, GoodBody, PlainParts, PrintBody;
    AtSplit(s, p, QualText(t.quals), PrintBody(t.body));
    NoBracketRuns(QualText(t.quals));
    ScanPlain(s, p, QualText(t.quals), d, open, close);
    ScanBody(s, p + |QualText(t.quals)|, t, d, open, close);
  }

  lemma {:induction false} ScanBody(s: string, p: nat, t: Type, d: nat, open: char, close: char)
    requires Good(t) && Plain(t) && At(s, p, PrintBody(t.body)) && IsPair(open, close) && d > 0
    ensures p + |PrintBody(t.body)| <= |s|
    ensures Scan(s, p, d, open, close) == Scan(s, p + |PrintBody(t.body)|, d, open, close)
    decreases t, 2
  {
    assert GoodBody(t.body) && PlainParts(t.body);
    PrintsAs(t.body);
    hide At, AllOf, Scan, Good, Plain, NoBrackets, PrintBody, Print;
    match t.body
    case Pointer(n, e) => ScanPointer(s, p, n, e, d, open, close);
    case Array(digits, e) => ScanArray(s, p, digits, e, d, open, close);
    case Aggregate(o, name, members) => ScanAggregate(s, p, t.body, d, open, close);
    case Complex(e) => ScanPrefixed(s, p, "j", e, d, open, close);
    case VectorOf(e) => ScanPrefixed(s, p, "!", e, d, open, close);
    case _ =>
      FlatBody(t.body);
      ScanPlain(s, p, PrintBody(t.body), d, open, close);
  }

  /** The texts of the bodies that have others inside. */
  lemma {:induction false} PrintsAs(b: Body)
    ensures b.Pointer? ==> PrintBody(b) == "^" + (Carets(b.extra) + Print(b.elem))
    ensures b.Array? ==> PrintBody(b) == "[" + (b.digits + (Print(b.elem) + "]"))
    ensures b.Complex? ==> PrintBody(b) == "j" + Print(b.elem)
    ensures b.VectorOf? ==> PrintBody(b) == "!" + Print(b.elem)
  {
  }

  lemma {:induction false} FlatBody(b: Body)
    requires GoodBody(b) && PlainParts(b) && !b.Pointer? && !b.Array? && !b.Aggregate? && !b.Complex? && !b.VectorOf?
    ensures NoBrackets(PrintBody(b))
  {
    if b.Bits? {
      NoBracketRuns(b.digits);
      PlainJoin("b", b.digits);
    }
    if b.Named? {
      NoBracketRuns(b.name);
      PlainJoin("@", Quoted(b.name));
    }
  }

  lemma {:induction false} ScanPrefixed(s: string, p: nat, code: string, e: Type, d: nat, open: char, close: char)
    requires code == "j" || code == "!"
    requires Good(e) && Plain(e) && At(s, p, code + Print(e)) && IsPair(open, close) && d > 0
    ensures var q := p + 1 + |Print(e)|; q <= |s| && Scan(s, p, d, open, close) == Scan(s, q, d, open, close)
    decreases e, 4
  {
    hide At, AllOf, Scan, Good, Plain, Print;
    AtSplit(s, p, code, Print(e));
    ScanPlain(s, p, code, d, open, close);
    ScanType(s, p + 1, e, d, open, close);
  }

  lemma {:induction false} ScanPointer(s: string, p: nat, n: nat, e: Type, d: nat, open: char, close: char)
    requires Good(e) && Plain(e) && At(s, p, "^" + (Carets(n) + Print(e))) && IsPair(open, close) && d > 0
    ensures var q := p + 1 + n + |Print(e)|; q <= |s| && Scan(s, p, d, open, close) == Scan(s, q, d, open, close)
    decreases e, 4
  {
    hide At, AllOf, Scan, Good, Plain, Print;
    assert "^" + (Carets(n) + Print(e)) == "^" + Carets(n) + Print(e);
    NoBracketRuns(Carets(n));
    PlainJoin("^", Carets(n));
    AtSplit(s, p, "^" + Carets(n), Print(e));
    ScanPlain(s, p, "^" + Carets(n), d, open, close);
    ScanType(s, p + 1 + n, e, d, open, close);
  }

  /** One bracket. */
  lemma ScanBracket(s: string, p: nat, c: char, d: nat, open: char, close: char)
    requires At(s, p, [c]) && IsBracket(c) && IsPair(open, close) && d > 0
    ensures p < |s| && s[p] == c
    ensures Scan(s, p, d, open, close) == Scan(s, p + 1, if c == open then d + 1 else if c == close then d - 1
            else d, open, close)
  {
    AtChar(s, p, [c], 0);
  }

  lemma {:induction false} ScanArray(s: string, p: nat, digits: string, e: Type, d: nat, open: char, close: char)
    requires Good(e) && Plain(e) && AllOf(digits, IsDigit) && At(s, p, "[" + (digits + (Print(e) + "]")))
    requires IsPair(open, close) && d > 0
    ensures var q := p + 2 + |digits| + |Print(e)|; q <= |s| && Scan(s, p, d, open, close) == Scan(s, q, d, open, close)
    decreases e, 4
  {
    hide At, AllOf, Scan, Good, Plain, Print;
    var inner := if open == '[' then d + 1 else d;
    AtSplit(s, p, "[", digits + (Print(e) + "]"));
    AtSplit(s, p + 1, digits, Print(e) + "]");
    AtSplit(s, p + 1 + |digits|, Print(e), "]");
    ScanBracket(s, p, '[', d, open, close);
    NoBracketRuns(digits);
    ScanPlain(s, p + 1, digits, inner, open, close);
    ScanType(s, p + 1 + |digits|, e, inner, open, close);
    ScanBracket(s, p + 1 + |digits| + |Print(e)|, ']', inner, open, close);
  }

  lemma {:induction false} ScanAggregate(s: string, p: nat, b: Body, d: nat, open: char, close: char)
    requires b.Aggregate? && GoodBody(b) && PlainParts(b) && At(s, p, PrintBody(b)) && IsPair(open, close) && d > 0
    ensures p + |PrintBody(b)| <= |s| && Scan(s, p, d, open, close) == Scan(s, p + |PrintBody(b)|, d, open, close)
    decreases b, 1
  {
    hide At, AllOf, Scan, GoodMembers, PlainMembers, PrintMembers;
    var inner := if open == b.open then d + 1 else d;
    AtSplit(s, p, [b.open], b.name + TailOf(b));
    ScanBracket(s, p, b.open, d, open, close);
    ScanInside(s, p + 1, b, inner, open, close);
    ScanBracket(s, p + |PrintBody(b)| - 1, Close(b.open), inner, open, close);
  }

  /** From after the opening bracket of an aggregate to its closing one. */
  lemma {:induction false} ScanInside(s: string, p: nat, b: Body, d: nat, open: char, close: char)
    requires b.Aggregate? && GoodBody(b) && PlainParts(b) && At(s, p, b.name + TailOf(b)) && IsPair(open, close)
    requires d > 0
    ensures var q := p + |b.name| + |TailOf(b)| - 1;
            q < |s| && At(s, q, [Close(b.open)]) && Scan(s, p, d, open, close) == Scan(s, q, d, open, close)
    decreases b, 0
  {
    hide At, AllOf, Scan, GoodMembers, PlainMembers, PrintMembers;
    var n := p + |b.name|;
    AtSplit(s, p, b.name, TailOf(b));
    ScanPlain(s, p, b.name, d, open, close);
    if b.members.None? {
      AtChar(s, n, [Close(b.open)], 0);
    } else {
      var w := PrintMembers(b.members.value);
      AtSplit(s, n, "=", w + [Close(b.open)]);
      AtSplit(s, n + 1, w, [Close(b.open)]);
      AtChar(s, n + 1 + |w|, [Close(b.open)], 0);
      ScanPlain(s, n, "=", d, open, close);
      ScanMembers(s, n + 1, b.members.value, Close(b.open), d, open, close);
    }
  }

  lemma {:induction false} ScanMembers(s: string, p: nat, m: Members, end: char, d: nat, open: char, close: char)
    requires GoodMembers(m, end) && PlainMembers(m) && At(s, p, PrintMembers(m)) && IsPair(open, close) && d > 0
    ensures p + |PrintMembers(m)| <= |s| && Scan(s, p, d, open, close) == Scan(s, p + |PrintMembers(m)|, d, open, close)
    decreases m, 4
  {
    hide At, Scan, Good, Plain, Print, Clash, FirstChar, Labels;
    PlainLabels(m.labels);
    match m
    case Last(labels) => ScanPlain(s, p, Labels(labels), d, open, close);
    case Member(labels, t, rest) =>
      var q := p + |Labels(labels)|;
      AtSplit(s, p, Labels(labels), Print(t) + PrintMembers(rest));
      AtSplit(s, q, Print(t), PrintMembers(rest));
      ScanPlain(s, p, Labels(labels), d, open, close);
      ScanType(s, q, t, d, open, close);
      ScanMembers(s, q + |Print(t)|, rest, end, d, open, close);
  }

  // ---------------------------------------------------------------- agreement with the parser

  /** Where the skip goes from a code that no qualifier precedes. */
  lemma SkipAtCode(s: string, q: nat)
    requires q < |s| && RunEnd(s, q, IsCommonQualifier) == q
    ensures s[q] == '^' ==> SkipEnd(s, q) == SkipEnd(s, q + 1)
    ensures s[q] == '{' ==> SkipEnd(s, q) == Scan(s, q + 1, 1, '{', '}')
    ensures s[q] == '(' ==> SkipEnd(s, q) == Scan(s, q + 1, 1, '(', ')')
    ensures s[q] == '[' ==> SkipEnd(s, q) == Scan(s, q + 1, 1, '[', ']')
    ensures s[q] == '@' && Char(s, q + 1) == '?' ==> SkipEnd(s, q) == q + 2
    ensures s[q] == '@' && Char(s, q + 1) == '"' && QuoteEnd(s, q + 1).Some? ==>
            SkipEnd(s, q) == QuoteEnd(s, q + 1).value
    ensures s[q] == '@' && Char(s, q + 1) != '?' && Char(s, q + 1) != '"' ==> SkipEnd(s, q) == q + 1
    ensures IsSimple(s[q]) || s[q] == 'b' || s[q] == 'j' || s[q] == '!' || s[q] == 'A' ==> SkipEnd(s, q) == q + 1
  {
    hide Scan, RunEnd;
  }

  lemma {:induction false} SkipCarets(s: string, p: nat, n: nat)
    requires At(s, p, Carets(n))
    ensures p + n <= |s| && SkipEnd(s, p) == SkipEnd(s, p + n)
    decreases n
  {
    hide SkipEnd;
    if n > 0 {
      AtChar(s, p, Carets(n), 0);
      assert Carets(n) == "^" + Carets(n - 1);
      AtSplit(s, p, "^", Carets(n - 1));
      SkipAtCode(s, p);
      SkipCarets(s, p + 1, n - 1);
    }
  }

  lemma {:induction false} QualsSkipped(s: string, i: nat, t: Type)
    requires Good(t) && AllOf(QualText(t.quals), IsCommonQualifier) && At(s, i, Print(t))
    ensures var q := i + |QualText(t.quals)|;
            && q < |s| && s[q] == Code(t.body) && At(s, q, PrintBody(t.body))
            && RunEnd(s, i, IsCommonQualifier) == q && RunEnd(s, q, IsCommonQualifier) == q
  {
    hide At, AllOf, GoodBody, PrintBody;
    var q := i + |QualText(t.quals)|;
    AtSplit(s, i, QualText(t.quals), PrintBody(t.body));
    AtChar(s, q, PrintBody(t.body), 0);
    FirstOf(t);
    RunIs(s, i, QualText(t.quals), IsCommonQualifier);
  }

  /** An atomic qualifier is taken for the type itself. */
  lemma {:induction false} AtomicStops(s: string, i: nat, w: string)
    requires At(s, i, w) && AllOf(w, IsQualifier) && !AllOf(w, IsCommonQualifier)
    ensures i <= |s| && SkipEnd(s, i) <= i + |w|
    decreases |w|
  {
    hide At, SkipEnd, RunEnd;
    AtChar(s, i, w, 0);
    assert w == [w[0]] + w[1..];
    AtSplit(s, i, [w[0]], w[1..]);
    if w[0] == 'A' {
      SliceAt(s, i, i);
      RunIs(s, i, "", IsCommonQualifier);
      SkipAtCode(s, i);
    } else {
      forall k | 0 <= k < |w[1..]| ensures IsQualifier(w[1..][k]) { assert IsQualifier(w[k + 1]); }
      var k :| 0 <= k < |w| && !IsCommonQualifier(w[k]);
      assert IsQualifier(w[0]) && k > 0 && !IsCommonQualifier(w[1..][k - 1]);
      AtomicStops(s, i + 1, w[1..]);
      QualifierSkipped(s, i);
    }
  }

  lemma {:induction false} QualifierSkipped(s: string, i: nat)
    requires i < |s| && IsCommonQualifier(s[i])
    ensures SkipEnd(s, i) == SkipEnd(s, i + 1)
  {
  }

  /** With bracket-free names, the skipper stops where the printed type ends exactly when it skips the
      type, and then it sees the type's own code. */
  lemma {:induction false} SkipsPrinted(s: string, i: nat, t: Type)
    requires Good(t) && Plain(t) && At(s, i, Print(t)) && !Clash(t, Char(s, i + |Print(t)|))
    ensures i + |Print(t)| <= |s| && (SkipEnd(s, i) == i + |Print(t)| <==> Skips(t))
    ensures Skips(t) ==> PrimaryCode(s, i) == Code(t.body)
    decreases t
  {
    hide At, AllOf, GoodBody, PlainParts, PrintBody, SkipEnd, RunEnd, SkipsParts, Skips, Clash;
    AtIs(s, i, Print(t));
    SkipsOpen(t);
    if AllOf(QualText(t.quals), IsCommonQualifier) {
      QualsSkipped(s, i, t);
      SkipIs(s, i, i + |QualText(t.quals)|);
      SkipsBody(s, i + |QualText(t.quals)|, t);
    } else {
      AtSplit(s, i, QualText(t.quals), PrintBody(t.body));
      AtomicStops(s, i, QualText(t.quals));
    }
  }

  lemma {:induction false} SkipsOpen(t: Type)
    requires Good(t) && Plain(t)
    ensures GoodBody(t.body) && PlainParts(t.body)
    ensures Skips(t) <==> AllOf(QualText(t.quals), IsCommonQualifier) && SkipsParts(t.body)
  {
  }

  lemma {:induction false} SkipIs(s: string, i: nat, q: nat)
    requires i <= q < |s| && RunEnd(s, i, IsCommonQualifier) == q && RunEnd(s, q, IsCommonQualifier) == q
    ensures SkipEnd(s, i) == SkipEnd(s, q)
  {
  }

  lemma {:induction false} SkipsBody(s: string, q: nat, t: Type)
    requires Good(t) && Plain(t) && GoodBody(t.body) && PlainParts(t.body)
    requires At(s, q, PrintBody(t.body)) && !Clash(t, Char(s, q + |PrintBody(t.body)|))
    requires q < |s| && s[q] == Code(t.body) && RunEnd(s, q, IsCommonQualifier) == q
    ensures SkipEnd(s, q) == q + |PrintBody(t.body)| <==> SkipsParts(t.body)
    decreases t, 0
  {
    hide At, AllOf, Good, Plain, Skips, RunEnd, SkipEnd;
    match t.body
    case Pointer(n, e) =>
      CaretsSkipped(s, q, n, e);
      SkipsPrinted(s, q + 1 + n, e);
    case Array(digits, e) => SkipsArray(s, q, digits, e);
    case Aggregate(open, name, members) => SkipsAggregate(s, q, t.body);
    case Named(name) => SkipsNamed(s, q, name);
    case _ => SkipsShort(s, q, t);
  }

  lemma CaretsSkipped(s: string, q: nat, n: nat, e: Type)
    requires At(s, q, "^" + (Carets(n) + Print(e))) && RunEnd(s, q, IsCommonQualifier) == q
    ensures q + 1 + n <= |s| && At(s, q + 1 + n, Print(e)) && SkipEnd(s, q) == SkipEnd(s, q + 1 + n)
  {
    hide At, RunEnd, Print, SkipEnd;
    AtSplit(s, q, "^", Carets(n) + Print(e));
    AtChar(s, q, "^", 0);
    AtSplit(s, q + 1, Carets(n), Print(e));
    SkipAtCode(s, q);
    SkipCarets(s, q + 1, n);
  }

  lemma {:induction false} SkipsNamed(s: string, q: nat, name: string)
    requires At(s, q, "@" + Quoted(name)) && AllOf(name, NotQuote) && RunEnd(s, q, IsCommonQualifier) == q
    ensures q <= |s| && SkipEnd(s, q) == q + 3 + |name|
  {
    hide At, AllOf, RunEnd, SkipEnd, QuoteEnd;
    AtSplit(s, q, "@", Quoted(name));
    AtChar(s, q, "@", 0);
    QuoteIs(s, q + 1, name);
    SkipAtCode(s, q);
  }

  /** The codes of one or two characters; of the four longer forms among them only the code is skipped. */
  lemma {:induction false} SkipsShort(s: string, q: nat, t: Type)
    requires GoodBody(t.body) && !t.body.Pointer? && !t.body.Array? && !t.body.Aggregate? && !t.body.Named?
    requires At(s, q, PrintBody(t.body)) && !Clash(t, Char(s, q + |PrintBody(t.body)|))
    requires q < |s| && s[q] == Code(t.body) && RunEnd(s, q, IsCommonQualifier) == q
    ensures SkipEnd(s, q) == q + |PrintBody(t.body)| <==> SkipsParts(t.body)
  {
    hide At, RunEnd, SkipEnd;
    if t.body.Block? { AtChar(s, q, "@?", 1); }
    SkipAtCode(s, q);
  }

  lemma {:induction false} SkipsArray(s: string, q: nat, digits: string, e: Type)
    requires Good(e) && Plain(e) && AllOf(digits, IsDigit) && At(s, q, "[" + (digits + (Print(e) + "]")))
    requires RunEnd(s, q, IsCommonQualifier) == q
    ensures SkipEnd(s, q) == q + 2 + |digits| + |Print(e)|
  {
    hide At, AllOf, Good, Plain, Print, RunEnd, SkipEnd;
    AtSplit(s, q, "[", digits + (Print(e) + "]"));
    AtChar(s, q, "[", 0);
    SkipAtCode(s, q);
    AtSplit(s, q + 1, digits, Print(e) + "]");
    AtSplit(s, q + 1 + |digits|, Print(e), "]");
    NoBracketRuns(digits);
    ScanPlain(s, q + 1, digits, 1, '[', ']');
    ScanType(s, q + 1 + |digits|, e, 1, '[', ']');
    ScanBracket(s, q + 1 + |digits| + |Print(e)|, ']', 1, '[', ']');
  }

  lemma {:induction false} SkipsAggregate(s: string, q: nat, b: Body)
    requires b.Aggregate? && GoodBody(b) && PlainParts(b) && At(s, q, PrintBody(b))
    requires RunEnd(s, q, IsCommonQualifier) == q
    ensures SkipEnd(s, q) == q + |PrintBody(b)|
  {
    var open, close := b.open, Close(b.open);
    assert PrintBody(b) == [open] + (b.name + TailOf(b)) && |TailOf(b)| > 0 && (open == '{' || open == '(');
    hide At, GoodBody, PlainParts, PrintBody, TailOf, RunEnd, SkipEnd;
    AtSplit(s, q, [open], b.name + TailOf(b));
    AtChar(s, q, [open], 0);
    SkipAtCode(s, q);
    ScanInside(s, q + 1, b, 1, open, close);
    ScanBracket(s, q + |PrintBody(b)| - 1, close, 1, open, close);
    ScanDone(s, q + |PrintBody(b)|, open, close);
  }

  lemma {:induction false} ScanDone(s: string, p: nat, open: char, close: char)
    requires p <= |s|
    ensures Scan(s, p, 0, open, close) == p
  {
  }

  // ---------------------------------------------------------------- method encodings

  /** The dispatcher's view of the arguments from `p` on, of which `index` came before: the codes after
      the two implicit arguments, up to four of them, and whether there is one it cannot pass. */
  function CodesFrom(s: string, p: nat, index: nat, codes: string): (string, bool)
    requires p <= |s|
    decreases |s| - p
  {
    if Char(s, p) == '\0' then (codes, false)
    else
      var code := PrimaryCode(s, p);
      var q := RunEnd(s, SkipEnd(s, p), NumberStarts);
      if index < 2 then CodesFrom(s, q, index + 1, codes)
      else if code == 'D' || |codes| >= MAX_CODES then (codes, true)
      else CodesFrom(s, q, index + 1, codes + [code])
  }

  function ExplicitCodes(s: string): (string, bool) {
    if Char(s, 0) == '\0' then ("", false) else CodesFrom(s, RunEnd(s, SkipEnd(s, 0), IsDigit), 0, "")
  }

  method SkipRun(s: string, start: nat, signs: bool) returns (p: nat)
    requires start <= |s|
    ensures p == RunEnd(s, start, if signs then NumberStarts else IsDigit)
  {
    p := start;
    while (signs && Char(s, p) == '-') || IsDigit(Char(s, p))
      invariant start <= p <= |s|
      invariant RunEnd(s, p, if signs then NumberStarts else IsDigit) == RunEnd(s, start, if signs then NumberStarts
                else IsDigit)
      decreases |s| - p
    {
      p := p + 1;
    }
  }

  /** collect_explicit_arg_codes, for a selector that has types. */
  method CollectExplicitArgCodes(s: string) returns (codes: string, unsupported: bool)
    ensures (codes, unsupported) == ExplicitCodes(s)
  {
    hide SkipEnd, PrimaryCode, RunEnd;
    codes, unsupported := "", false;
    if Char(s, 0) == '\0' {
      return;
    }
    var p := SkipTypeToken(s, 0);
    p := SkipRun(s, p, false);
    var index := 0;
    while Char(s, p) != '\0'
      invariant p <= |s| && index >= 0 && CodesFrom(s, p, index, codes) == ExplicitCodes(s)
      decreases |s| - p
    {
      var code := PrimaryTypeCode(s, p);
      p := SkipTypeToken(s, p);
      p := SkipRun(s, p, true);
      if index >= 2 {
        if code == 'D' {
          return codes, true;
        }
        if |codes| >= MAX_CODES {
          return codes, true;
        }
        codes := codes + [code];
      }
      index := index + 1;
    }
  }

  /** A type that the skipper steps over, with bracket-free names, stands at `i`. */
  ghost predicate SkippedAt(s: string, i: nat) {
    exists j, t :: Derives(s, i, j, t) && Plain(t) && Skips(t)
  }

  ghost predicate SkippedFrom(s: string, p: nat)
    requires p <= |s|
    decreases |s| - p
  {
    Char(s, p) == '\0' ||
    (SkippedAt(s, p) && (ParseType(s, p).Some? ==> SkippedFrom(s, OffsetEnd(s, ParseType(s, p).value.1))))
  }

  /** Return type and arguments are skipped whole. */
  ghost predicate SkippedMethod(s: string) {
    SkippedAt(s, 0) && (ParseType(s, 0).Some? ==> SkippedFrom(s, OffsetEnd(s, ParseType(s, 0).value.1)))
  }

  lemma {:induction false} SkipsParsed(s: string, i: nat)
    requires SkippedAt(s, i)
    ensures ParseType(s, i).Some? && i <= |s| && SkipEnd(s, i) == ParseType(s, i).value.1
    ensures PrimaryCode(s, i) == ParseType(s, i).value.0.code
    ensures !NumberStarts(Char(s, i)) && Char(s, i) != '\0'
  {
    hide SkipEnd, PrimaryCode, ParseType, Good, Plain, Skips, Print, Clash, At;
    var j, t :| Derives(s, i, j, t) && Plain(t) && Skips(t);
    ParseInvertsPrint(s, i, t);
    SkipsPrinted(s, i, t);
    AtChar(s, i, Print(t), 0);
    FirstOf(t);
  }

  /** Signs and digits end together with one signed number when nothing like one follows it. */
  lemma {:induction false} OffsetsAgree(s: string, p: nat)
    requires p <= |s| && !NumberStarts(Char(s, OffsetEnd(s, p)))
    ensures RunEnd(s, p, NumberStarts) == OffsetEnd(s, p)
  {
    var q := OffsetEnd(s, p);
    if p < q {
      var first := if Char(s, p) == '-' then p + 1 else p;
      assert forall k :: 0 <= k < |s[first..q]| ==> IsDigit(s[first..q][k]);
      forall k | 0 <= k < |s[p..q]| ensures NumberStarts(s[p..q][k]) {
        if k >= first - p { assert s[p..q][k] == s[first..q][k - (first - p)]; }
      }
    }
    SliceAt(s, p, q);
    RunIs(s, p, s[p..q], NumberStarts);
  }

  lemma {:induction false} NextStarts(s: string, p: nat)
    requires p <= |s| && SkippedFrom(s, p)
    ensures !NumberStarts(Char(s, p))
  {
    if Char(s, p) != '\0' { SkipsParsed(s, p); }
  }

  /** Codes of the parsed arguments. */
  function CodesOf(arguments: seq<Argument>): string {
    seq(|arguments|, k requires 0 <= k < |arguments| => arguments[k].encoding.code)
  }

  /** What the dispatcher should answer for the given explicit codes: it takes them in order until a
      long double or a fifth one. */
  function Accepted(explicit: string, codes: string): (string, bool)
    decreases |explicit|
  {
    if explicit == "" then (codes, false)
    else if explicit[0] == 'D' || |codes| >= MAX_CODES then (codes, true)
    else Accepted(explicit[1..], codes + [explicit[0]])
  }

  function Dropped(w: string, n: nat): string {
    if |w| <= n then "" else w[n..]
  }

  /** One argument as both readers see it. */
  lemma {:induction false} ArgumentAgrees(s: string, p: nat)
    requires p <= |s| && SkippedFrom(s, p) && ParseArguments(s, p).Some? && Char(s, p) != '\0'
    ensures var q := RunEnd(s, SkipEnd(s, p), NumberStarts);
            && p < q <= |s| && SkippedFrom(s, q) && ParseArguments(s, q).Some?
            && CodesOf(ParseArguments(s, p).value.0) == [PrimaryCode(s, p)] + CodesOf(ParseArguments(s, q).value.0)
  {
    hide SkipEnd, PrimaryCode, ParseType, OffsetEnd, OffsetValue, RunEnd, NumberStarts;
    SkipsParsed(s, p);
    var e := ParseType(s, p).value;
    var q := OffsetEnd(s, e.1);
    NextStarts(s, q);
    OffsetsAgree(s, e.1);
    var rest := ParseArguments(s, q).value.0;
    var all := ParseArguments(s, p).value.0;
    assert all == [all[0]] + rest && all[0].encoding.code == e.0.code;
    assert CodesOf(all) == [e.0.code] + CodesOf(rest);
  }

  lemma {:induction false} CodesAgree(s: string, p: nat, index: nat, codes: string)
    requires p <= |s| && SkippedFrom(s, p) && ParseArguments(s, p).Some?
    ensures CodesFrom(s, p, index, codes) ==
            Accepted(Dropped(CodesOf(ParseArguments(s, p).value.0), if index >= 2 then 0 else 2 - index), codes)
    decreases |s| - p
  {
    hide SkipEnd, PrimaryCode, RunEnd, SkippedFrom, ParseArguments, CodesOf, Dropped, Accepted, CodesFrom;
    CodesStep(s, p, index, codes);
    if Char(s, p) == '\0' {
      ArgumentsEnd(s, p);
      NoCodes();
      AcceptedEnd(if index >= 2 then 0 else 2 - index, codes);
    } else {
      ArgumentAgrees(s, p);
      var q, c := RunEnd(s, SkipEnd(s, p), NumberStarts), PrimaryCode(s, p);
      var rest := CodesOf(ParseArguments(s, q).value.0);
      DroppedStep(c, rest, if index >= 2 then 0 else 2 - index);
      AcceptedStep(c, rest, codes);
      if index < 2 {
        CodesAgree(s, q, index + 1, codes);
      } else if c != 'D' && |codes| < MAX_CODES {
        CodesAgree(s, q, index + 1, codes + [c]);
        DroppedNone(rest);
      }
    }
  }

  lemma {:induction false} CodesStep(s: string, p: nat, index: nat, codes: string)
    requires p <= |s|
    ensures CodesFrom(s, p, index, codes) ==
            if Char(s, p) == '\0' then (codes, false)
            else
              var code, q := PrimaryCode(s, p), RunEnd(s, SkipEnd(s, p), NumberStarts);
              if index < 2 then CodesFrom(s, q, index + 1, codes)
              else if code == 'D' || |codes| >= MAX_CODES then (codes, true)
              else CodesFrom(s, q, index + 1, codes + [code])
  {
  }

  lemma {:induction false} DroppedNone(w: string)
    ensures Dropped(w, 0) == w
  {
  }

  lemma {:induction false} DroppedStep(c: char, rest: string, n: nat)
    ensures Dropped([c] + rest, n) == if n == 0 then [c] + rest else Dropped(rest, n - 1)
  {
  }

  lemma {:induction false} AcceptedEnd(n: nat, codes: string)
    ensures Accepted(Dropped("", n), codes) == (codes, false)
  {
  }

  lemma {:induction false} AcceptedStep(c: char, rest: string, codes: string)
    ensures Accepted([c] + rest, codes) ==
            if c == 'D' || |codes| >= MAX_CODES then (codes, true) else Accepted(rest, codes + [c])
  {
    assert ([c] + rest)[1..] == rest;
  }

  lemma NoCodes()
    ensures CodesOf([]) == ""
  {
  }

  /** The codes the dispatcher meets: those of the parsed arguments, after the sign of the frame size if it
      has one, which it takes for an argument of its own. */
  function Met(s: string, p: nat, all: string): string {
    if Char(s, p) == '-' then "-" + all else all
  }

  /** For every method encoding of types that are skipped, the dispatcher collects what it meets after the
      first two. With an unsigned frame size these are the arguments the parser recorded. */
  lemma {:induction false} CollectedAreParsed(s: string)
    requires ParseMethod(s).Some? && SkippedMethod(s)
    ensures var e := ParseType(s, 0).value.1;
            && ParseArguments(s, OffsetEnd(s, e)).Some?
            && var all := CodesOf(ParseArguments(s, OffsetEnd(s, e)).value.0);
               ExplicitCodes(s) == Accepted(Dropped(Met(s, e, all), 2), "")
  {
    hide SkipEnd, PrimaryCode, ParseType, ParseArguments, CodesFrom, Accepted, SkippedFrom;
    SkipsParsed(s, 0);
    var e := ParseType(s, 0).value.1;
    if Char(s, e) == '-' {
      SignIsCollected(s, e);
    } else {
      CodesAgree(s, OffsetEnd(s, e), 0, "");
      if NumberStarts(Char(s, e)) {
        assert OffsetEnd(s, e) == RunEnd(s, e, IsDigit);
      } else {
        assert RunEnd(s, e, IsDigit) == e;
      }
    }
  }

  /** A sign in front of the frame size is an argument to the dispatcher. */
  lemma {:induction false} SignIsCollected(s: string, e: nat)
    requires e < |s| && Char(s, e) == '-' && SkippedFrom(s, OffsetEnd(s, e)) && ParseArguments(s, OffsetEnd(s, e)).Some?
    ensures var all := CodesOf(ParseArguments(s, OffsetEnd(s, e)).value.0);
            CodesFrom(s, RunEnd(s, e, IsDigit), 0, "") == Accepted(Dropped("-" + all, 2), "")
  {
    hide ParseArguments, Accepted, SkippedFrom;
    var q := OffsetEnd(s, e);
    var all := CodesOf(ParseArguments(s, q).value.0);
    NextStarts(s, q);
    OffsetsAgree(s, e);
    assert RunEnd(s, e + 1, NumberStarts) == q by { RunAfter(s, e); }
    assert RunEnd(s, e, IsDigit) == e;
    assert PrimaryCode(s, e) == '-' && SkipEnd(s, e) == e + 1;
    assert CodesFrom(s, e, 0, "") == CodesFrom(s, q, 1, "");
    CodesAgree(s, q, 1, "");
    assert Dropped("-" + all, 2) == Dropped(all, 1);
  }

  lemma {:induction false} RunAfter(s: string, e: nat)
    requires e < |s| && NumberStarts(s[e])
    ensures RunEnd(s, e, NumberStarts) == RunEnd(s, e + 1, NumberStarts)
  {
  }

  /** Without a long double and with at most four explicit arguments every one is collected; otherwise,
      and only then, the signature is reported as unsupported. */
  lemma {:induction false} AcceptedIs(explicit: string, codes: string)
    ensures Accepted(explicit, codes).1 <==> 'D' in explicit || (|codes| + |explicit| > 4 && explicit != "")
    ensures !Accepted(explicit, codes).1 ==> Accepted(explicit, codes).0 == codes + explicit
    ensures |Accepted(explicit, codes).0| <= |codes| + |explicit| && Accepted(explicit, codes).0 <= codes + explicit
    decreases |explicit|
  {
    if explicit != "" && explicit[0] != 'D' && |codes| < MAX_CODES {
      var rest := explicit[1..];
      AcceptedIs(rest, codes + [explicit[0]]);
      assert explicit == [explicit[0]] + rest;
      assert codes + [explicit[0]] + rest == codes + explicit;
    }
  }

  /** Where the two readers part ways: over the width of a bit-field, and over a signed frame size. */
  lemma BitFieldsDiffer()
    ensures ParseType("b3", 0).Some? && ParseType("b3", 0).value.1 == 2 && SkipEnd("b3", 0) == 1
  {
    var s := "b3";
    RunIs(s, 0, "", IsQualifier);
    RunIs(s, 0, "", IsCommonQualifier);
    RunIs(s, 1, "3", IsDigit);
  }

  lemma SignedFramesDiffer()
    ensures ParseType("v-@:", 0).Some? && ExplicitCodes("v-@:") == (":", false)
    ensures var p := OffsetEnd("v-@:", ParseType("v-@:", 0).value.1);
            && ParseArguments("v-@:", p).Some?
            && Dropped(CodesOf(ParseArguments("v-@:", p).value.0), 2) == ""
  {
    var s := "v-@:";
    ArgumentsSeen(s);
    CodesSeen(s);
  }

  lemma {:induction false} ArgumentsSeen(s: string)
    requires s == "v-@:"
    ensures ParseType(s, 0).Some? && ParseType(s, 0).value.1 == 1 && OffsetEnd(s, 1) == 2
    ensures ParseArguments(s, 2).Some? && |ParseArguments(s, 2).value.0| == 2
  {
    RunIs(s, 0, "", IsQualifier);
    RunIs(s, 2, "", IsQualifier);
    RunIs(s, 3, "", IsQualifier);
    RunIs(s, 2, "", IsDigit);
    ArgumentsEnd(s, 4);
    assert ParseType(s, 3).Some? && ParseType(s, 3).value.1 == 4;
    assert ParseArguments(s, 3).Some? && |ParseArguments(s, 3).value.0| == 1;
    assert ParseType(s, 2).Some? && ParseType(s, 2).value.1 == 3;
  }

  lemma CodesSeen(s: string)
    requires s == "v-@:"
    ensures ExplicitCodes(s) == (":", false)
  {
    forall i | 0 <= i < 4 ensures RunEnd(s, i, IsCommonQualifier) == i {
      RunIs(s, i, "", IsCommonQualifier);
    }
    RunIs(s, 1, "", IsDigit);
    RunIs(s, 2, "", NumberStarts);
    RunIs(s, 3, "", NumberStarts);
    RunIs(s, 4, "", NumberStarts);
    assert SkipEnd(s, 0) == 1 && SkipEnd(s, 1) == 2 && SkipEnd(s, 2) == 3 && SkipEnd(s, 3) == 4;
    assert CodesFrom(s, 4, 3, ":") == (":", false);
    assert CodesFrom(s, 3, 2, "") == CodesFrom(s, 4, 3, "" + ":");
    assert CodesFrom(s, 2, 1, "") == CodesFrom(s, 3, 2, "");
    assert CodesFrom(s, 1, 0, "") == CodesFrom(s, 2, 1, "");
    assert "" + ":" == ":";
    assert ExplicitCodes(s) == CodesFrom(s, 1, 0, "");
  }
}

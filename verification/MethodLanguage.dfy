/** Method encodings as a language: a result and the arguments, each a printed type and possibly a number. */
module MethodLanguage {

  import opened Wrappers
  import opened EncodingSyntax
  import opened EncodingParser
  import opened EncodingLanguage
  import opened EncodingLoops

  /** A frame size or an offset as it is written, perhaps as a sign alone. */
  datatype Number = Number(negative: bool, digits: string)

  datatype Part = Part(t: Type, number: Option<Number>)

  function NumberText(n: Option<Number>): string {
    if n.None? then "" else (if n.value.negative then "-" else "") + n.value.digits
  }

  function PartText(x: Part): (w: string)
    ensures |w| > 0
  {
    Print(x.t) + NumberText(x.number)
  }

  predicate GoodNumber(n: Number) {
    AllOf(n.digits, IsDigit) && (n.negative || n.digits != "")
  }

  /** The 32-bit number nearest to the one written, and zero if there is none. */
  function Value(n: Option<Number>): (v: int)
    requires n.Some? ==> GoodNumber(n.value)
    ensures -0x7FFF_FFFF <= v <= 0x7FFF_FFFF
  {
    if n.None? then 0
    else
      var d := Decimal(n.value.digits);
      var near := if d < 0x8000_0000 then d else 0x7FFF_FFFF;
      if n.value.negative then 0 - near else near
  }

  predicate GoodPart(x: Part) {
    Good(x.t) && (x.number.Some? ==> GoodNumber(x.number.value))
  }

  /** `after` continues neither the type nor the number. */
  predicate Ends(x: Part, after: char) {
    if x.number.Some? then !IsDigit(after) && !Clash(x.t, Char(NumberText(x.number), 0))
    else !NumberStarts(after) && !Clash(x.t, after)
  }

  /** The parts stand one behind the other from `p` to the end of the text. */
  predicate PartsAt(s: string, p: nat, xs: seq<Part>)
    decreases |xs|
  {
    if xs == [] then p <= |s| && Char(s, p) == '\0'
    else
      var q := p + |PartText(xs[0])|;
      GoodPart(xs[0]) && At(s, p, PartText(xs[0])) && Ends(xs[0], Char(s, q)) && PartsAt(s, q, xs[1..])
  }

  // ---------------------------------------------------------------- numbers

  lemma {:induction false} NumberRead(s: string, p: nat, n: Number)
    requires GoodNumber(n) && At(s, p, NumberText(Some(n))) && !IsDigit(Char(s, p + |NumberText(Some(n))|))
    ensures OffsetEnd(s, p) == p + |NumberText(Some(n))| && p <= |s| && OffsetValue(s, p) == Value(Some(n))
  {
    hide Decimal, At, AllOf, RunEnd;
    var w, sign := NumberText(Some(n)), if n.negative then "-" else "";
    var first := p + |sign|;
    AtSplit(s, p, sign, n.digits);
    RunIs(s, first, n.digits, IsDigit);
    AtIs(s, first, n.digits);
    SignOrDigit(n);
    AtChar(s, p, w, 0);
  }

  lemma SignOrDigit(n: Number)
    requires GoodNumber(n)
    ensures var w := NumberText(Some(n));
            w != "" && (w[0] == '-' <==> n.negative) && (!n.negative ==> IsDigit(w[0]))
  {
  }

  lemma {:induction false} NumberAt(s: string, p: nat) returns (n: Number)
    requires p <= |s| && NumberStarts(Char(s, p))
    ensures GoodNumber(n) && At(s, p, NumberText(Some(n))) && OffsetEnd(s, p) == p + |NumberText(Some(n))|
    ensures !IsDigit(Char(s, OffsetEnd(s, p)))
  {
    var negative := Char(s, p) == '-';
    var first := if negative then p + 1 else p;
    var end := RunEnd(s, first, IsDigit);
    n := Number(negative, s[first..end]);
    assert NumberText(Some(n)) == s[p..end];
  }

  /** Writing a number out and reading it gives it back, if it fits 32 bits, and otherwise the nearest that does. */
  lemma {:induction false} IntegerRead(v: int, w: int)
    requires -0x7FFF_FFFF <= w <= 0x7FFF_FFFF
    ensures var n := Number(v < 0, Numeral(if v < 0 then 0 - v else v));
            && GoodNumber(n) && NumberText(Some(n)) == (if v < 0 then "-" + Numeral(0 - v) else Numeral(v))
            && (-0x8000_0000 < v < 0x8000_0000 ==> Value(Some(n)) == v)
            && (if v <= w then Value(Some(n)) <= w else Value(Some(n)) >= w)
  {
    hide Decimal, Numeral;
    DecimalIsNumeral(if v < 0 then 0 - v else v);
  }

  // ---------------------------------------------------------------- parts, written and read

  /** What is recorded of a part that stands at `p`. */
  function Recorded(x: Part, p: nat): Argument
    requires GoodPart(x)
  {
    Argument(Expect(x.t, p), Value(x.number), Text(p, |PartText(x)|))
  }

  lemma {:induction false} PartRead(s: string, p: nat, x: Part)
    requires GoodPart(x) && At(s, p, PartText(x)) && Ends(x, Char(s, p + |PartText(x)|))
    ensures p < |s| && Char(s, p) != '\0'
    ensures ParseType(s, p) == Some((Expect(x.t, p), p + |Print(x.t)|)) && p + |Print(x.t)| <= |s|
    ensures OffsetEnd(s, p + |Print(x.t)|) == p + |PartText(x)| <= |s|
    ensures OffsetValue(s, p + |Print(x.t)|) == Value(x.number)
  {
    hide ParseType, Expect, Clash, Good, Value, OffsetValue;
    var q := p + |Print(x.t)|;
    AtSplit(s, p, Print(x.t), NumberText(x.number));
    FirstOf(x.t);
    AtChar(s, p, Print(x.t), 0);
    if x.number.Some? {
      AtChar(s, q, NumberText(x.number), 0);
      ParseInvertsPrint(s, p, x.t);
      NumberRead(s, q, x.number.value);
    } else {
      ParseInvertsPrint(s, p, x.t);
      NoNumber(s, q);
    }
  }

  lemma {:induction false} NoNumber(s: string, q: nat)
    requires q <= |s| && !NumberStarts(Char(s, q))
    ensures OffsetEnd(s, q) == q && OffsetValue(s, q) == Value(None) == 0
  {
  }

  /** Where part `k` begins. */
  function Start(p: nat, xs: seq<Part>, k: nat): nat
    requires k <= |xs|
    decreases k
  {
    if k == 0 then p else Start(p + |PartText(xs[0])|, xs[1..], k - 1)
  }

  predicate GoodParts(xs: seq<Part>) {
    forall k :: 0 <= k < |xs| ==> GoodPart(xs[k])
  }

  lemma {:induction false} ArgumentsInvert(s: string, p: nat, xs: seq<Part>)
    requires PartsAt(s, p, xs)
    ensures p <= |s| && GoodParts(xs) && ParseArguments(s, p).Some? && |ParseArguments(s, p).value.0| == |xs|
    ensures ParseArguments(s, p).value.1 == Start(p, xs, |xs|)
    ensures forall k :: 0 <= k < |xs| ==> ParseArguments(s, p).value.0[k] == Recorded(xs[k], Start(p, xs, k))
    decreases |xs|
  {
    hide ParseType, Ends, GoodPart, Recorded, OffsetEnd, OffsetValue, PartText, At;
    if xs != [] {
      var x, q := xs[0], p + |PartText(xs[0])|;
      PartRead(s, p, x);
      ArgumentsInvert(s, q, xs[1..]);
      RecordedIs(x, p);
      forall k | 0 <= k < |xs|
        ensures GoodPart(xs[k]) && ParseArguments(s, p).value.0[k] == Recorded(xs[k], Start(p, xs, k))
      {
        if k > 0 {
          assert xs[1..][k - 1] == xs[k] && GoodPart(xs[1..][k - 1]);
        }
      }
    }
  }

  lemma RecordedIs(x: Part, p: nat)
    requires GoodPart(x)
    ensures Recorded(x, p) == Argument(Expect(x.t, p), Value(x.number), Text(p, |PartText(x)|))
  {
  }

  /** A written method is read as what was written: the result and its frame size, the number of arguments, and of
      the first 32 each type with the offset behind it. */
  lemma {:induction false} MethodInverts(s: string, xs: seq<Part>)
    requires xs != [] && PartsAt(s, 0, xs)
    ensures GoodParts(xs) && ParseMethod(s).Some?
    ensures var m := ParseMethod(s).value;
            && m.returned == Expect(xs[0].t, 0) && m.frame == Value(xs[0].number)
            && m.count == |xs| - 1 && (m.truncated <==> |xs| > 33) && m.source == Text(0, Start(0, xs, |xs|))
            && |m.arguments| == (if |xs| > 33 then 32 else |xs| - 1)
            && forall k :: 0 <= k < |m.arguments| ==> m.arguments[k] == Recorded(xs[k + 1], Start(0, xs, k + 1))
  {
    hide ParseType, Ends, GoodPart, Recorded, OffsetEnd, OffsetValue, PartText, At;
    var x, q := xs[0], |PartText(xs[0])|;
    PartRead(s, 0, x);
    ArgumentsInvert(s, q, xs[1..]);
    forall k | 0 <= k < |xs| ensures GoodPart(xs[k]) {
      if k > 0 { assert xs[k] == xs[1..][k - 1] && GoodPart(xs[1..][k - 1]); }
    }
  }

  /** And the recorded source of an argument is the text of its part. */
  lemma {:induction false} SourcesAreRead(s: string, p: nat, xs: seq<Part>, k: nat)
    requires PartsAt(s, p, xs) && k < |xs|
    ensures Reads(s, Text(Start(p, xs, k), |PartText(xs[k])|), PartText(xs[k]))
    decreases k
  {
    hide Ends, GoodPart, PartText;
    if k > 0 { SourcesAreRead(s, p + |PartText(xs[0])|, xs[1..], k - 1); }
  }

  // ---------------------------------------------------------------- and back

  lemma {:induction false} PartOf(s: string, p: nat) returns (x: Part)
    requires p <= |s| && ParseType(s, p).Some?
    ensures GoodPart(x) && At(s, p, PartText(x)) && OffsetEnd(s, ParseType(s, p).value.1) == p + |PartText(x)|
    ensures Ends(x, Char(s, p + |PartText(x)|))
  {
    hide ParseType, Clash, Good, At, Print, AllOf;
    var t := TreeOf(s, p);
    var q := ParseType(s, p).value.1;
    if NumberStarts(Char(s, q)) {
      var n := NumberAt(s, q);
      x := Part(t, Some(n));
      AtJoin(s, p, Print(t), NumberText(Some(n)));
      AtChar(s, q, NumberText(Some(n)), 0);
    } else {
      x := Part(t, None);
      assert PartText(x) == Print(t);
    }
  }

  lemma {:induction false} ArgumentsOf(s: string, p: nat) returns (xs: seq<Part>)
    requires p <= |s| && ParseArguments(s, p).Some?
    ensures PartsAt(s, p, xs)
    decreases |s| - p
  {
    hide ParseType, Ends, GoodPart, PartText, At, OffsetEnd, OffsetValue;
    xs := [];
    if Char(s, p) != '\0' {
      var x := PartOf(s, p);
      var rest := ArgumentsOf(s, p + |PartText(x)|);
      xs := [x] + rest;
      assert xs[1..] == rest;
    }
  }

  /** The parser accepts exactly the written methods. */
  lemma {:induction false} ParsesExactlyMethods(s: string) returns (xs: seq<Part>)
    ensures ParseMethod(s).Some? ==> xs != [] && PartsAt(s, 0, xs)
    ensures ParseMethod(s).None? ==> forall ys :: ys != [] ==> !PartsAt(s, 0, ys)
  {
    hide ParseType, Ends, GoodPart, PartText, At, OffsetEnd, OffsetValue;
    xs := [];
    if ParseMethod(s).Some? {
      var x := PartOf(s, 0);
      var rest := ArgumentsOf(s, |PartText(x)|);
      xs := [x] + rest;
      assert xs[1..] == rest;
    } else {
      forall ys | ys != [] ensures !PartsAt(s, 0, ys) {
        if PartsAt(s, 0, ys) { MethodInverts(s, ys); }
      }
    }
  }
}

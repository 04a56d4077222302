/** The cursor loops of the encoding parser, computing `EncodingParser.ParseType`, and the
    method-encoding parser on top of them. */
module EncodingLoops {

  import opened Wrappers
  import opened EncodingSyntax
  import opened EncodingParser

  lemma DecimalStep(s: string, p: nat, k: nat)
    requires p <= k < |s| && AllOf(s[p..k], IsDigit) && IsDigit(s[k])
    ensures AllOf(s[p..k + 1], IsDigit)
    ensures Decimal(s[p..k + 1]) == 10 * Decimal(s[p..k]) + (s[k] as int - '0' as int)
  {
    var w := s[p..k + 1];
    assert w[..|w| - 1] == s[p..k];
    forall j | 0 <= j < |w| ensures IsDigit(w[j]) {
      if j < k - p { assert w[j] == s[p..k][j]; }
    }
  }

  lemma NoDigits()
    ensures Decimal("") == 0
  {
  }

  lemma ModStep(n: nat, d: nat)
    ensures (n % UINT64 * 10 + d) % UINT64 == (10 * n + d) % UINT64
  {
    var q := n / UINT64;
    assert n == UINT64 * q + n % UINT64;
    Multiple(n % UINT64 * 10 + d, 10 * q);
  }

  lemma Multiple(a: int, k: int)
    ensures (a + k * UINT64) % UINT64 == a % UINT64
  {
  }

  /** sf_encoding_parse_unsigned. */
  method ParseUnsigned(s: string, p: nat) returns (value: nat, end: nat)
    requires p <= |s|
    ensures end == RunEnd(s, p, IsDigit) && value == Decimal(s[p..end]) % UINT64
  {
    hide Decimal;
    value, end := 0, p;
    assert s[p..p] == "" && Decimal("") == 0 by { NoDigits(); }
    while IsDigit(Char(s, end))
      invariant p <= end <= |s| && RunEnd(s, end, IsDigit) == RunEnd(s, p, IsDigit)
      invariant AllOf(s[p..end], IsDigit) && value == Decimal(s[p..end]) % UINT64
      decreases |s| - end
    {
      DecimalStep(s, p, end);
      ModStep(Decimal(s[p..end]), s[end] as int - '0' as int);
      value := (value * 10 + (s[end] as int - '0' as int)) % UINT64;
      end := end + 1;
    }
  }

  /** A number that may be signed, and may be only a sign. */
  function SignedEnd(s: string, p: nat): (q: nat)
    ensures p <= q && (p <= |s| ==> q <= |s|)
  {
    RunEnd(s, if Char(s, p) == '-' then p + 1 else p, IsDigit)
  }

  /** The magnitude stops at the largest 32-bit integer. */
  function SignedValue(s: string, p: nat): int
    requires p <= |s|
  {
    var first := if Char(s, p) == '-' then p + 1 else p;
    var v := Decimal(s[first..RunEnd(s, first, IsDigit)]);
    var clamped := if v > INT32_MAX then INT32_MAX else v;
    if Char(s, p) == '-' then -clamped else clamped
  }

  /** sf_encoding_parse_signed. */
  method ParseSigned(s: string, p: nat) returns (value: int, end: nat)
    requires p <= |s|
    ensures end == SignedEnd(s, p) && value == SignedValue(s, p) && -INT32_MAX <= value <= INT32_MAX
  {
    var negative := false;
    value, end := 0, p;
    if Char(s, p) == '-' {
      negative := true;
      end := end + 1;
    }
    ghost var first := end;
    while IsDigit(Char(s, end))
      invariant first <= end <= |s| && RunEnd(s, end, IsDigit) == RunEnd(s, first, IsDigit)
      invariant AllOf(s[first..end], IsDigit)
      invariant value == if Decimal(s[first..end]) > INT32_MAX then INT32_MAX else Decimal(s[first..end])
      decreases |s| - end
    {
      DecimalStep(s, first, end);
      value := value * 10 + (s[end] as int - '0' as int);
      if value > INT32_MAX {
        value := INT32_MAX;
      }
      end := end + 1;
    }
    if negative {
      value := -value;
    }
  }

  /** sf_encoding_skip_quoted. */
  method SkipQuoted(s: string, p: nat) returns (end: Option<nat>)
    requires p <= |s|
    ensures end == if Char(s, p) != '"' then None else QuoteEnd(s, p)
  {
    if Char(s, p) != '"' {
      return None;
    }
    var q := p + 1;
    while Char(s, q) != '\0' && Char(s, q) != '"'
      invariant p < q <= |s| && RunEnd(s, q, NotQuote) == RunEnd(s, p + 1, NotQuote)
      decreases |s| - q
    {
      q := q + 1;
    }
    end := if Char(s, q) == '"' then Some(q + 1) else None;
  }

  /** sf_parse_encoding_aggregate. */
  method ParseEncodingAggregate(s: string, p: nat, close: char) returns (ok: bool, name: Text, fields: Text, end: nat)
    requires p <= |s| && (close == '}' || close == ')')
    ensures ok == ParseAggregate(s, p, close).Some? && (ok ==> (name, fields, end) == ParseAggregate(s, p, close).value)
    decreases |s| - p, 3
  {
    hide ParseFields;
    ok, name, fields, end := false, NoText, NoText, p;
    while Char(s, end) != '\0' && Char(s, end) != '=' && Char(s, end) != close
      invariant p <= end <= |s| && RunEnd(s, end, NameChar(close)) == RunEnd(s, p, NameChar(close))
      decreases |s| - end
    {
      end := end + 1;
    }
    name := Text(p, end - p);
    if Char(s, end) == close {
      return true, name, NoText, end + 1;
    }
    if Char(s, end) != '=' {
      return;
    }
    end := end + 1;
    var start := end;
    var good;
    good, end := ParseMembers(s, start, close);
    if !good {
      return;
    }
    return true, name, Text(start, end - start), end + 1;
  }

  /** The member loop of an aggregate, up to its closing bracket. */
  method ParseMembers(s: string, start: nat, close: char) returns (ok: bool, end: nat)
    requires start <= |s| && (close == '}' || close == ')')
    ensures ok == ParseFields(s, start, close).Some? && (ok ==> end == ParseFields(s, start, close).value)
    decreases |s| - start, 5
  {
    hide ParseType;
    ok, end := false, start;
    while Char(s, end) != '\0' && Char(s, end) != close
      invariant start <= end <= |s| && ParseFields(s, end, close) == ParseFields(s, start, close)
      decreases |s| - end
    {
      ghost var first := end;
      while Char(s, end) == '"'
        invariant first <= end <= |s| && LabelsEnd(s, end) == LabelsEnd(s, first)
        decreases |s| - end
      {
        var q := SkipQuoted(s, end);
        if q.None? {
          return false, end;
        }
        end := q.value;
      }
      if Char(s, end) == close {
        break;
      }
      var good, _, next := ParseEncodingType(s, end);
      if !good {
        return false, end;
      }
      end := next;
    }
    ok := Char(s, end) == close;
    if !ok { NulParsesToNone(s, end); }
  }

  lemma {:induction false} NulParsesToNone(s: string, i: nat)
    requires i <= |s| && Char(s, i) == '\0'
    ensures ParseType(s, i).None? && LabelsEnd(s, i) == Some(i)
  {
  }

  /** sf_parse_encoding_type. */
  method ParseEncodingType(s: string, start: nat) returns (ok: bool, out: Encoding, end: nat)
    requires start <= |s|
    ensures ok == ParseType(s, start).Some? && (ok ==> (out, end) == ParseType(s, start).value)
    decreases |s| - start, 4
  {
    hide ParseBody;
    out := Encoding(Unknown, {}, 0, 0, 0, '\0', NoText, NoText, NoText, NoText);
    ok, end := false, start;
    while Char(s, end) != '\0'
      invariant start <= end <= |s| && RunEnd(s, end, IsQualifier) == RunEnd(s, start, IsQualifier)
      invariant out.quals == QualSet(s[start..end])
      decreases |s| - end
    {
      var qualifier := QualifierFor(Char(s, end));
      if qualifier.None? {
        break;
      }
      QualSetStep(s[start..end], s[end]);
      assert s[start..end + 1] == s[start..end] + [s[end]];
      out := out.(quals := out.quals + {qualifier.value});
      end := end + 1;
    }
    if Char(s, end) == '\0' {
      return false, out, end;
    }
    var code := s[end];
    end := end + 1;
    var parts;
    ok, parts := ParseEncodingBody(s, end, code);
    if !ok {
      return false, out, end;
    }
    out := Encoding(parts.kind, out.quals, parts.depth, parts.count, parts.bits, code, Text(start, parts.end - start),
                    parts.name, parts.element, parts.fields);
    end := parts.end;
  }

  lemma QualSetStep(w: string, c: char)
    requires QualifierFor(c).Some?
    ensures QualSet(w + [c]) == QualSet(w) + {QualifierFor(c).value}
  {
    var v := w + [c];
    forall q | q in QualSet(v) ensures q in QualSet(w) + {QualifierFor(c).value} {
      var k :| 0 <= k < |v| && QualifierFor(v[k]).Some? && QualifierFor(v[k]).value == q;
      if k < |w| { assert v[k] == w[k]; }
    }
    forall q | q in QualSet(w) ensures q in QualSet(v) {
      var k :| 0 <= k < |w| && QualifierFor(w[k]).Some? && QualifierFor(w[k]).value == q;
      assert v[k] == w[k];
    }
    assert v[|w|] == c;
  }

  /** The switch on the code. */
  method ParseEncodingBody(s: string, p: nat, code: char) returns (ok: bool, parts: Parts)
    requires p <= |s|
    ensures ok == ParseBody(s, p, code).Some? && (ok ==> parts == ParseBody(s, p, code).value)
    decreases |s| - p, 6
  {
    hide ParseType, ParseAggregate;
    ok, parts := true, PLAIN.(end := p);
    var element, end;
    if SimpleKind(code).Some? {
      parts := parts.(kind := SimpleKind(code).value);
    } else if code == '@' {
      if Char(s, p) == '?' {
        parts := parts.(kind := BlockKind, end := p + 1);
      } else {
        parts := parts.(kind := ObjectKind);
        if Char(s, p) == '"' {
          var q := SkipQuoted(s, p);
          if q.None? {
            return false, parts;
          }
          parts := parts.(name := Text(p + 1, q.value - p - 2), end := q.value);
        }
      }
    } else if code == '^' {
      ok, parts := ParsePointerLoop(s, p);
    } else if code == '[' {
      var count, k := ParseUnsigned(s, p);
      ok, element, end := ParseEncodingType(s, k);
      if !ok || Char(s, end) != ']' {
        return false, parts;
      }
      parts := parts.(kind := ArrayKind, count := count, element := element.source, end := end + 1);
    } else if code == '{' || code == '(' {
      var name, fields;
      ok, name, fields, end := ParseEncodingAggregate(s, p, if code == '{' then '}' else ')');
      parts := parts.(kind := if code == '{' then StructKind
        else UnionKind, name := name, fields := fields, end := end);
    } else if code == 'b' {
      var bits, k := ParseUnsigned(s, p);
      parts := parts.(kind := BitFieldKind, bits := bits, end := k);
    } else if code == 'j' {
      ok, element, end := ParseEncodingType(s, p);
      parts := parts.(kind := ComplexKind, element := element.source, end := end);
    } else if code == '!' {
      parts := parts.(kind := VectorKind);
      if Char(s, p) == '[' {
        ok, element, end := ParseEncodingType(s, p);
        parts := parts.(element := element.source, end := end);
      }
    } else {
      ok := false;
    }
  }

  lemma DepthStep(n: nat)
    ensures (n % UINT32 + 1) % UINT32 == (n + 1) % UINT32
  {
  }

  /** Adjacent carets are counted into one pointer. */
  method ParsePointerLoop(s: string, p: nat) returns (ok: bool, parts: Parts)
    requires p <= |s|
    ensures ok == ParsePointer(s, p).Some? && (ok ==> parts == ParsePointer(s, p).value)
    decreases |s| - p, 5
  {
    hide ParseType;
    var depth, end: nat := 1, p;
    while Char(s, end) == '^'
      invariant p <= end <= |s| && RunEnd(s, end, IsCaret) == RunEnd(s, p, IsCaret) && depth == (1 + (end - p)) % UINT32
      decreases |s| - end
    {
      DepthStep(1 + (end - p));
      depth := (depth + 1) % UINT32;
      end := end + 1;
    }
    var element, next;
    ok, element, next := ParseEncodingType(s, end);
    parts := PLAIN.(kind := PointerKind, depth := depth, element := element.source, end := next);
  }

  // ---------------------------------------------------------------- method encodings

  const MAX_ARGUMENTS: nat := 32

  datatype Argument = Argument(encoding: Encoding, offset: int, source: Text)

  datatype Method = Method(returned: Encoding, frame: int, count: nat, arguments: seq<Argument>, truncated: bool,
    source: Text)

  predicate NumberStarts(c: char) {
    c == '-' || IsDigit(c)
  }

  function OffsetEnd(s: string, p: nat): (q: nat)
    ensures p <= q && (p <= |s| ==> q <= |s|)
  {
    if NumberStarts(Char(s, p)) then SignedEnd(s, p) else p
  }

  function OffsetValue(s: string, p: nat): int
    requires p <= |s|
  {
    if NumberStarts(Char(s, p)) then SignedValue(s, p) else 0
  }

  /** All arguments from `p` on, and where the text ends. */
  function ParseArguments(s: string, p: nat): (r: Option<(seq<Argument>, nat)>)
    requires p <= |s|
    ensures r.Some? ==> p <= r.value.1 <= |s| && Char(s, r.value.1) == '\0'
    decreases |s| - p
  {
    if Char(s, p) == '\0' then Some(([], p))
    else
      var e := ParseType(s, p);
      if e.None? then None
      else
        var q := OffsetEnd(s, e.value.1);
        var rest := ParseArguments(s, q);
        if rest.None? then None
        else Some(([Argument(e.value.0, OffsetValue(s, e.value.1), Text(p, q - p))] + rest.value.0, rest.value.1))
  }

  function ParseMethod(s: string): Option<Method> {
    var e := ParseType(s, 0);
    if e.None? then None
    else
      var p := OffsetEnd(s, e.value.1);
      var a := ParseArguments(s, p);
      if a.None? then None
      else
        var n := |a.value.0|;
        Some(Method(e.value.0, OffsetValue(s, e.value.1), n,
                    if n <= MAX_ARGUMENTS then a.value.0
                      else a.value.0[..MAX_ARGUMENTS], n > MAX_ARGUMENTS, Text(0, a.value.1)))
  }

  /** Arguments read so far, put back in front of the rest. */
  function Prepended(all: seq<Argument>, rest: Option<(seq<Argument>, nat)>): Option<(seq<Argument>, nat)> {
    if rest.None? then None else Some((all + rest.value.0, rest.value.1))
  }

  lemma PrependNone(rest: Option<(seq<Argument>, nat)>)
    ensures Prepended([], rest) == rest
  {
    if rest.Some? { assert [] + rest.value.0 == rest.value.0; }
  }

  lemma {:induction false} ArgumentStep(s: string, p: nat, argument: Argument, next: nat, all: seq<Argument>)
    requires p <= |s| && Char(s, p) != '\0' && ParseType(s, p).Some? && next == OffsetEnd(s, ParseType(s, p).value.1)
    requires argument == Argument(ParseType(s, p).value.0, OffsetValue(s, ParseType(s, p).value.1), Text(p, next - p))
    ensures next <= |s| && Prepended(all, ParseArguments(s, p)) == Prepended(all + [argument], ParseArguments(s, next))
  {
    hide ParseType, OffsetEnd, OffsetValue;
    var rest := ParseArguments(s, next);
    if rest.Some? { assert all + ([argument] + rest.value.0) == all + [argument] + rest.value.0; }
  }

  lemma {:induction false} ArgumentsEnd(s: string, p: nat)
    requires p <= |s| && Char(s, p) == '\0'
    ensures ParseArguments(s, p) == Some(([], p))
  {
  }

  lemma {:induction false} ArgumentsFail(s: string, p: nat)
    requires p <= |s| && Char(s, p) != '\0' && ParseType(s, p).None?
    ensures ParseArguments(s, p).None?
  {
  }

  /** sf_method_encoding_parse_uncached: at most 32 arguments are recorded, all are counted. */
  method ParseMethodEncoding(s: string) returns (r: Option<Method>)
    ensures r == ParseMethod(s)
  {
    hide ParseType, SignedEnd, SignedValue, ParseArguments;
    if Char(s, 0) == '\0' {
      NulParsesToNone(s, 0);
      return None;
    }
    var ok, returned, p := ParseEncodingType(s, 0);
    if !ok {
      return None;
    }
    var frame := 0;
    if Char(s, p) == '-' || IsDigit(Char(s, p)) {
      frame, p := ParseSigned(s, p);
    }
    ghost var start, all := p, [];
    PrependNone(ParseArguments(s, p));
    var count, arguments, truncated := 0, [], false;
    while Char(s, p) != '\0'
      invariant p <= |s| && count == |all| && truncated == (|all| > MAX_ARGUMENTS)
      invariant arguments == if |all| <= MAX_ARGUMENTS then all else all[..MAX_ARGUMENTS]
      invariant ParseArguments(s, start) == Prepended(all, ParseArguments(s, p))
      decreases |s| - p
    {
      var first := p;
      var good, encoding, next := ParseEncodingType(s, p);
      if !good {
        ArgumentsFail(s, p);
        return None;
      }
      p := next;
      var offset := 0;
      if Char(s, p) == '-' || IsDigit(Char(s, p)) {
        offset, p := ParseSigned(s, p);
      }
      var argument := Argument(encoding, offset, Text(first, p - first));
      ArgumentStep(s, first, argument, p, all);
      all := all + [argument];
      if count < MAX_ARGUMENTS {
        arguments := arguments + [argument];
      } else {
        truncated := true;
      }
      count := count + 1;
    }
    ArgumentsEnd(s, p);
    assert all + [] == all;
    r := Some(Method(returned, frame, count, arguments, truncated, Text(0, p)));
  }
}

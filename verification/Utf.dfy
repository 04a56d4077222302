/** UTF-8 and UTF-16 as the string class reads and writes them, against the grammar and tables of RFC 3629
    (sections 3 and 4) and the surrogate pairs of RFC 2781 (sections 2.1 and 2.2). */
module Utf {

  import opened Wrappers

  type Byte = bv8
  type Unit = bv16
  type Point = bv32

  // ---------------------------------------------------------------- the grammar of section 4 of RFC 3629

  predicate Tail(b: Byte) {
    0x80 <= b <= 0xBF
  }

  predicate Is1(a: Byte) {
    a <= 0x7F
  }

  predicate Is2(a: Byte, b: Byte) {
    0xC2 <= a <= 0xDF && Tail(b)
  }

  predicate Is3(a: Byte, b: Byte, c: Byte) {
    || (a == 0xE0 && 0xA0 <= b <= 0xBF && Tail(c))
    || (0xE1 <= a <= 0xEC && Tail(b) && Tail(c))
    || (a == 0xED && 0x80 <= b <= 0x9F && Tail(c))
    || (0xEE <= a <= 0xEF && Tail(b) && Tail(c))
  }

  predicate Is4(a: Byte, b: Byte, c: Byte, d: Byte) {
    || (a == 0xF0 && 0x90 <= b <= 0xBF && Tail(c) && Tail(d))
    || (0xF1 <= a <= 0xF3 && Tail(b) && Tail(c) && Tail(d))
    || (a == 0xF4 && 0x80 <= b <= 0x8F && Tail(c) && Tail(d))
  }

  predicate IsChar(b: seq<Byte>) {
    match |b|
    case 1 => Is1(b[0])
    case 2 => Is2(b[0], b[1])
    case 3 => Is3(b[0], b[1], b[2])
    case 4 => Is4(b[0], b[1], b[2], b[3])
    case _ => false
  }

  // ---------------------------------------------------------------- the table of section 3 of RFC 3629

  function Value1(a: Byte): Point {
    a as Point
  }

  function Value2(a: Byte, b: Byte): Point {
    ((a & 0x1F) as Point << 6) | (b & 0x3F) as Point
  }

  function Value3(a: Byte, b: Byte, c: Byte): Point {
    ((a & 0x0F) as Point << 12) | ((b & 0x3F) as Point << 6) | (c & 0x3F) as Point
  }

  function Value4(a: Byte, b: Byte, c: Byte, d: Byte): Point {
    ((a & 0x07) as Point << 18) | ((b & 0x3F) as Point << 12) | ((c & 0x3F) as Point << 6) | (d & 0x3F) as Point
  }

  /** The bits the bytes of a character carry. */
  function PointOf(b: seq<Byte>): Point {
    match |b|
    case 1 => Value1(b[0])
    case 2 => Value2(b[0], b[1])
    case 3 => Value3(b[0], b[1], b[2])
    case 4 => Value4(b[0], b[1], b[2], b[3])
    case _ => 0
  }

  predicate Surrogate(p: Point) {
    0xD800 <= p <= 0xDFFF
  }

  /** A Unicode scalar value. */
  predicate Scalar(p: Point) {
    p <= 0x10FFFF && !Surrogate(p)
  }

  /** Lead and tail bytes of the encodings of two, three and four bytes. */
  function Lead2(p: Point): Byte
    requires p <= 0x7FF
  {
    (0xC0 | (p >> 6)) as Byte
  }

  function Lead3(p: Point): Byte
    requires p <= 0xFFFF
  {
    (0xE0 | (p >> 12)) as Byte
  }

  function Lead4(p: Point): Byte
    requires p <= 0x10FFFF
  {
    (0xF0 | (p >> 18)) as Byte
  }

  function Tail0(p: Point): Byte {
    (0x80 | (p & 0x3F)) as Byte
  }

  function Tail6(p: Point): Byte {
    (0x80 | ((p >> 6) & 0x3F)) as Byte
  }

  function Tail12(p: Point): Byte {
    (0x80 | ((p >> 12) & 0x3F)) as Byte
  }

  /** How many bytes a code point takes. */
  function SizeOf(p: Point): (n: nat)
    ensures 1 <= n <= 4
  {
    if p <= 0x7F then 1 else if p <= 0x7FF then 2 else if p <= 0xFFFF then 3 else 4
  }

  /** The encoding of a code point; a surrogate gets the three bytes its bits would take. */
  function CharOf(p: Point): (b: seq<Byte>)
    requires p <= 0x10FFFF
    ensures |b| == SizeOf(p)
  {
    if p <= 0x7F then [p as Byte]
    else if p <= 0x7FF then [Lead2(p), Tail0(p)]
    else if p <= 0xFFFF then [Lead3(p), Tail6(p), Tail0(p)]
    else [Lead4(p), Tail12(p), Tail6(p), Tail0(p)]
  }

  lemma Encodes1(p: Point)
    requires p <= 0x7F
    ensures Is1(p as Byte) && Value1(p as Byte) == p
  {
  }

  lemma Encodes2(p: Point)
    requires 0x80 <= p <= 0x7FF
    ensures Is2(Lead2(p), Tail0(p)) && Value2(Lead2(p), Tail0(p)) == p
  {
  }

  lemma Encodes3(p: Point)
    requires 0x800 <= p <= 0xFFFF
    ensures (Is3(Lead3(p), Tail6(p), Tail0(p)) <==> !Surrogate(p)) && Value3(Lead3(p), Tail6(p), Tail0(p)) == p
  {
  }

  lemma Encodes4(p: Point)
    requires 0x1_0000 <= p <= 0x10FFFF
    ensures Is4(Lead4(p), Tail12(p), Tail6(p), Tail0(p)) && Value4(Lead4(p), Tail12(p), Tail6(p), Tail0(p)) == p
  {
  }

  lemma Decodes1(a: Byte)
    requires Is1(a)
    ensures Value1(a) <= 0x7F && Value1(a) as Byte == a
  {
  }

  lemma Decodes2(a: Byte, b: Byte)
    requires Is2(a, b)
    ensures var p := Value2(a, b); 0x80 <= p <= 0x7FF && Lead2(p) == a && Tail0(p) == b
  {
  }

  lemma Decodes3(a: Byte, b: Byte, c: Byte)
    requires Is3(a, b, c)
    ensures var p := Value3(a, b, c);
            0x800 <= p <= 0xFFFF && !Surrogate(p) && Lead3(p) == a && Tail6(p) == b && Tail0(p) == c
  {
  }

  lemma Decodes4(a: Byte, b: Byte, c: Byte, d: Byte)
    requires Is4(a, b, c, d)
    ensures var p := Value4(a, b, c, d);
            0x1_0000 <= p <= 0x10FFFF && Lead4(p) == a && Tail12(p) == b && Tail6(p) == c && Tail0(p) == d
  {
  }

  /** The encoding of a code point is a character exactly when the code point is a scalar value, and then
      carries it. */
  lemma CharOfIsChar(p: Point)
    requires p <= 0x10FFFF
    ensures (IsChar(CharOf(p)) <==> Scalar(p)) && PointOf(CharOf(p)) == p
  {
    hide Is1, Is2, Is3, Is4, Value1, Value2, Value3, Value4, Lead2, Lead3, Lead4, Tail0, Tail6, Tail12;
    if p <= 0x7F { Encodes1(p); }
    else if p <= 0x7FF { Encodes2(p); }
    else if p <= 0xFFFF { Encodes3(p); }
    else { Encodes4(p); }
  }

  /** Every character is the encoding of its value, a scalar value: none is overlong, a surrogate or out
      of range. */
  lemma CharIsCharOf(b: seq<Byte>)
    requires IsChar(b)
    ensures Scalar(PointOf(b)) && CharOf(PointOf(b)) == b
  {
    hide Is1, Is2, Is3, Is4, Value1, Value2, Value3, Value4, Lead2, Lead3, Lead4, Tail0, Tail6, Tail12;
    match |b|
    case 1 => Decodes1(b[0]);
    case 2 => Decodes2(b[0], b[1]);
    case 3 => Decodes3(b[0], b[1], b[2]);
    case 4 => Decodes4(b[0], b[1], b[2], b[3]);
  }

  // ---------------------------------------------------------------- decoding one character

  /** How many bytes the character at an offset has, if there is one. */
  function CharAt(bytes: seq<Byte>, o: nat): (n: Option<nat>)
    requires o <= |bytes|
    ensures n.Some? ==> 1 <= n.value <= 4 && o + n.value <= |bytes| && IsChar(bytes[o..o + n.value])
  {
    if o + 1 <= |bytes| && IsChar(bytes[o..o + 1]) then Some(1)
    else if o + 2 <= |bytes| && IsChar(bytes[o..o + 2]) then Some(2)
    else if o + 3 <= |bytes| && IsChar(bytes[o..o + 3]) then Some(3)
    else if o + 4 <= |bytes| && IsChar(bytes[o..o + 4]) then Some(4)
    else None
  }

  /** The tests of the two-byte case accept exactly the grammar's two-byte characters; and so for three
      and four bytes. */
  lemma Accepts2(a: Byte, b: Byte)
    requires a & 0xE0 == 0xC0
    ensures b & 0xC0 == 0x80 && Value2(a, b) >= 0x80 <==> Is2(a, b)
  {
  }

  lemma Accepts3(a: Byte, b: Byte, c: Byte)
    requires a & 0xF0 == 0xE0
    ensures (b & 0xC0 == 0x80 && c & 0xC0 == 0x80 && !(Value3(a, b, c) < 0x800 || Surrogate(Value3(a, b, c)))) <==>
            Is3(a, b, c)
  {
  }

  lemma Accepts4(a: Byte, b: Byte, c: Byte, d: Byte)
    requires a & 0xF8 == 0xF0
    ensures (b & 0xC0 == 0x80 && c & 0xC0 == 0x80 && d & 0xC0 == 0x80
             && !(Value4(a, b, c, d) < 0x1_0000 || Value4(a, b, c, d) > 0x10FFFF)) <==> Is4(a, b, c, d)
  {
  }

  /** The lead byte decides the length. */
  lemma LeadByte(a: Byte)
    ensures Is1(a) <==> a < 0x80
    ensures forall b :: Is2(a, b) ==> a & 0xE0 == 0xC0 && !(a < 0x80)
    ensures forall b, c :: Is3(a, b, c) ==> a & 0xF0 == 0xE0 && !(a < 0x80) && a & 0xE0 != 0xC0
    ensures forall b, c, d :: Is4(a, b, c, d) ==>
            a & 0xF8 == 0xF0 && !(a < 0x80) && a & 0xE0 != 0xC0 && a & 0xF0 != 0xE0
  {
  }

  /** The slices a character can be. */
  lemma Slices(bytes: seq<Byte>, o: nat)
    requires o < |bytes|
    ensures IsChar(bytes[o..o + 1]) == Is1(bytes[o]) && PointOf(bytes[o..o + 1]) == Value1(bytes[o])
    ensures o + 2 <= |bytes| ==>
            IsChar(bytes[o..o + 2]) == Is2(bytes[o], bytes[o + 1])
            && PointOf(bytes[o..o + 2]) == Value2(bytes[o], bytes[o + 1])
    ensures o + 3 <= |bytes| ==>
              && IsChar(bytes[o..o + 3]) == Is3(bytes[o], bytes[o + 1], bytes[o + 2])
              && PointOf(bytes[o..o + 3]) == Value3(bytes[o], bytes[o + 1], bytes[o + 2])
    ensures o + 4 <= |bytes| ==>
              && IsChar(bytes[o..o + 4]) == Is4(bytes[o], bytes[o + 1], bytes[o + 2], bytes[o + 3])
              && PointOf(bytes[o..o + 4]) == Value4(bytes[o], bytes[o + 1], bytes[o + 2], bytes[o + 3])
  {
    hide Is1, Is2, Is3, Is4, Value1, Value2, Value3, Value4;
  }

  /** No character is the beginning of another. */
  lemma CharAtIs(bytes: seq<Byte>, o: nat, n: nat)
    requires 0 < n && o + n <= |bytes| && IsChar(bytes[o..o + n])
    ensures CharAt(bytes, o) == Some(n)
  {
    Slices(bytes, o);
    LeadByte(bytes[o]);
    hide Is1, Is2, Is3, Is4, Value1, Value2, Value3, Value4, PointOf;
  }

  /** sf_string_utf8_decode_one: succeeds exactly on a character of the grammar, and gives its value. */
  method DecodeOne(bytes: seq<Byte>, offset: nat) returns (ok: bool, point: Point, next: nat)
    requires offset <= |bytes|
    ensures ok == CharAt(bytes, offset).Some?
    ensures ok ==> next == offset + CharAt(bytes, offset).value && point == PointOf(bytes[offset..next])
  {
    hide Is1, Is2, Is3, Is4, Value1, Value2, Value3, Value4, PointOf, IsChar;
    ok, point, next := false, 0, offset;
    if offset >= |bytes| {
      return;
    }
    Slices(bytes, offset);
    var c0 := bytes[offset];
    LeadByte(c0);
    if c0 < 0x80 {
      return true, Value1(c0), offset + 1;
    }
    if c0 & 0xE0 == 0xC0 {
      if offset + 1 >= |bytes| {
        return;
      }
      var c1 := bytes[offset + 1];
      Accepts2(c0, c1);
      if c1 & 0xC0 != 0x80 {
        return;
      }
      var value := Value2(c0, c1);
      if value < 0x80 {
        return;
      }
      CharAtIs(bytes, offset, 2);
      return true, value, offset + 2;
    }
    if c0 & 0xF0 == 0xE0 {
      if offset + 2 >= |bytes| {
        return;
      }
      var c1, c2 := bytes[offset + 1], bytes[offset + 2];
      Accepts3(c0, c1, c2);
      if c1 & 0xC0 != 0x80 || c2 & 0xC0 != 0x80 {
        return;
      }
      var value := Value3(c0, c1, c2);
      if value < 0x800 || (0xD800 <= value && value <= 0xDFFF) {
        return;
      }
      CharAtIs(bytes, offset, 3);
      return true, value, offset + 3;
    }
    if c0 & 0xF8 == 0xF0 {
      if offset + 3 >= |bytes| {
        return;
      }
      var c1, c2, c3 := bytes[offset + 1], bytes[offset + 2], bytes[offset + 3];
      Accepts4(c0, c1, c2, c3);
      if c1 & 0xC0 != 0x80 || c2 & 0xC0 != 0x80 || c3 & 0xC0 != 0x80 {
        return;
      }
      var value := Value4(c0, c1, c2, c3);
      if value < 0x1_0000 || value > 0x10FFFF {
        return;
      }
      CharAtIs(bytes, offset, 4);
      return true, value, offset + 4;
    }
  }

  // ---------------------------------------------------------------- decoding a text

  /** The code points from an offset on, as far as the bytes are characters, and where they stop. */
  function Points(bytes: seq<Byte>, o: nat): (r: (seq<Point>, nat))
    requires o <= |bytes|
    ensures o <= r.1 <= |bytes|
    decreases |bytes| - o
  {
    var n := CharAt(bytes, o);
    if n.None? then ([], o)
    else
      var rest := Points(bytes, o + n.value);
      ([PointOf(bytes[o..o + n.value])] + rest.0, rest.1)
  }

  /** The bytes from an offset on are characters to the end. */
  predicate Accepted(bytes: seq<Byte>, o: nat)
    requires o <= |bytes|
  {
    Points(bytes, o).1 == |bytes|
  }

  /** UTF8-octets of section 4 of RFC 3629: characters one after the other. */
  ghost predicate Octets(bytes: seq<Byte>, o: nat)
    requires o <= |bytes|
    decreases |bytes| - o
  {
    o == |bytes| || exists n: nat :: CharHere(bytes, o, n) && Octets(bytes, o + n)
  }

  predicate CharHere(bytes: seq<Byte>, o: nat, n: nat) {
    0 < n && o + n <= |bytes| && IsChar(bytes[o..o + n])
  }

  lemma {:induction false} AcceptsTheGrammar(bytes: seq<Byte>, o: nat)
    requires o <= |bytes|
    ensures Accepted(bytes, o) <==> Octets(bytes, o)
    decreases |bytes| - o
  {
    hide IsChar, PointOf;
    if o < |bytes| {
      var n := CharAt(bytes, o);
      if n.Some? {
        assert CharHere(bytes, o, n.value);
        AcceptsTheGrammar(bytes, o + n.value);
        if Octets(bytes, o) {
          var k: nat :| CharHere(bytes, o, k) && Octets(bytes, o + k);
          CharAtIs(bytes, o, k);
        }
      } else if Octets(bytes, o) {
        var k: nat :| CharHere(bytes, o, k) && Octets(bytes, o + k);
        CharAtIs(bytes, o, k);
      }
    } else {
      NoCharAtEnd(bytes);
    }
  }

  lemma NoCharAtEnd(bytes: seq<Byte>)
    ensures CharAt(bytes, |bytes|) == None
  {
  }

  // ---------------------------------------------------------------- UTF-16

  /** The surrogate pair of a code point above the basic plane, section 2.1 of RFC 2781. */
  function High(p: Point): Unit
    requires 0x1_0000 <= p <= 0x10FFFF
  {
    (0xD800 + ((p - 0x1_0000) >> 10)) as Unit
  }

  function Low(p: Point): Unit
    requires 0x1_0000 <= p <= 0x10FFFF
  {
    (0xDC00 + ((p - 0x1_0000) & 0x3FF)) as Unit
  }

  function Units(p: Point): seq<Unit>
    requires p <= 0x10FFFF
  {
    if p <= 0xFFFF then [p as Unit] else [High(p), Low(p)]
  }

  /** The examples of section 7 of RFC 3629 and section 5 of RFC 2781. */
  lemma KnownCharacters()
    ensures CharOf(0x0041) == [0x41] && CharOf(0x0391) == [0xCE, 0x91]
    ensures CharOf(0x2262) == [0xE2, 0x89, 0xA2] && CharOf(0xD55C) == [0xED, 0x95, 0x9C]
    ensures CharOf(0x65E5) == [0xE6, 0x97, 0xA5] && CharOf(0x233B4) == [0xF0, 0xA3, 0x8E, 0xB4]
    ensures Units(0x12345) == [0xD808, 0xDF45] && Units(0x52) == [0x52]
  {
  }

  predicate InRange(points: seq<Point>) {
    forall k :: 0 <= k < |points| ==> points[k] <= 0x10FFFF
  }

  function Expand(points: seq<Point>): seq<Unit>
    requires InRange(points)
  {
    if points == [] then [] else Expand(points[..|points| - 1]) + Units(points[|points| - 1])
  }

  lemma {:induction false} ExpandJoin(a: seq<Point>, b: seq<Point>)
    requires InRange(a) && InRange(b)
    ensures InRange(a + b) && Expand(a + b) == Expand(a) + Expand(b)
    decreases |b|
  {
    if b == [] {
      assert a + b == a;
    } else {
      var rest := b[..|b| - 1];
      assert (a + b)[..|a + b| - 1] == a + rest;
      ExpandJoin(a, rest);
    }
  }

  lemma ExpandOne(p: Point)
    requires p <= 0x10FFFF
    ensures InRange([p]) && Expand([p]) == Units(p)
  {
    assert [p][..0] == [];
    assert Expand([]) == [];
  }

  lemma {:induction false} PointsAreScalar(bytes: seq<Byte>, o: nat)
    requires o <= |bytes|
    ensures InRange(Points(bytes, o).0) && forall k :: 0 <= k < |Points(bytes, o).0| ==> Scalar(Points(bytes, o).0[k])
    decreases |bytes| - o
  {
    hide IsChar, PointOf, CharAt;
    var n := CharAt(bytes, o);
    if n.Some? {
      CharIsCharOf(bytes[o..o + n.value]);
      PointsAreScalar(bytes, o + n.value);
    }
  }

  /** The points read so far, in front of the ones still to come. */
  predicate Split(bytes: seq<Byte>, done: seq<Point>, o: nat) {
    o <= |bytes| && InRange(done) && Points(bytes, 0) == (done + Points(bytes, o).0, Points(bytes, o).1)
  }

  lemma SplitStart(bytes: seq<Byte>)
    ensures Split(bytes, [], 0)
  {
    assert [] + Points(bytes, 0).0 == Points(bytes, 0).0;
  }

  lemma {:induction false} SplitStep(bytes: seq<Byte>, done: seq<Point>, o: nat)
    requires Split(bytes, done, o) && CharAt(bytes, o).Some?
    ensures var p := PointOf(bytes[o..o + CharAt(bytes, o).value]);
            && Scalar(p) && p <= 0x10FFFF && Split(bytes, done + [p], o + CharAt(bytes, o).value)
            && Expand(done + [p]) == Expand(done) + Units(p)
  {
    hide IsChar, PointOf, CharAt, Units;
    var n := CharAt(bytes, o).value;
    var p := PointOf(bytes[o..o + n]);
    CharIsCharOf(bytes[o..o + n]);
    assert done + ([p] + Points(bytes, o + n).0) == done + [p] + Points(bytes, o + n).0;
    assert (done + [p])[..|done|] == done;
  }

  /** sf_string_utf8_measure_units, whose loop is also that of sf_string_utf8_unit_length: accepts exactly
      UTF-8 and counts the units of its UTF-16 expansion. */
  method MeasureUnits(bytes: seq<Byte>) returns (ok: bool, units: nat, asciiOnly: bool)
    ensures ok == Accepted(bytes, 0)
    ensures InRange(Points(bytes, 0).0) && (ok ==> units == |Expand(Points(bytes, 0).0)|)
    ensures ok ==> asciiOnly == Ascii(Points(bytes, 0).0)
  {
    hide IsChar, PointOf, CharAt, Expand;
    PointsAreScalar(bytes, 0);
    var offset := 0;
    ok, units, asciiOnly := true, 0, true;
    ghost var done: seq<Point> := [];
    SplitStart(bytes);
    ExpandNone();
    while offset < |bytes|
      invariant offset <= |bytes| && Split(bytes, done, offset) && units == |Expand(done)|
      invariant asciiOnly == Ascii(done)
      decreases |bytes| - offset
    {
      var good, point, next := DecodeOne(bytes, offset);
      if !good {
        return false, 0, false;
      }
      SplitStep(bytes, done, offset);
      AsciiStep(done, point);
      done := done + [point];
      if point > 0x7F {
        asciiOnly := false;
      }
      units := units + if point <= 0xFFFF then 1 else 2;
      offset := next;
    }
    NoCharAtEnd(bytes);
    assert done + [] == done;
  }

  predicate Ascii(points: seq<Point>) {
    forall k :: 0 <= k < |points| ==> points[k] <= 0x7F
  }

  lemma AsciiStep(points: seq<Point>, p: Point)
    ensures Ascii(points + [p]) == (Ascii(points) && p <= 0x7F)
  {
    if Ascii(points + [p]) {
      assert (points + [p])[|points|] == p;
      forall k | 0 <= k < |points| ensures points[k] <= 0x7F { assert (points + [p])[k] == points[k]; }
    }
  }

  lemma ExpandNone()
    ensures Expand([]) == []
  {
  }

  /** sf_string_utf8_character_at: the unit of the expansion at an index, or zero past its end. */
  method CharacterAt(bytes: seq<Byte>, idx: nat) returns (unit: Unit)
    ensures InRange(Points(bytes, 0).0)
    ensures unit == if idx < |Expand(Points(bytes, 0).0)| then Expand(Points(bytes, 0).0)[idx] else 0
  {
    hide IsChar, PointOf, CharAt, Expand;
    PointsAreScalar(bytes, 0);
    var offset, units := 0, 0;
    ghost var done: seq<Point> := [];
    SplitStart(bytes);
    ExpandNone();
    while offset < |bytes|
      invariant offset <= |bytes| && Split(bytes, done, offset) && units == |Expand(done)| <= idx
      decreases |bytes| - offset
    {
      var good, point, next := DecodeOne(bytes, offset);
      if !good {
        assert done + [] == done;
        return 0;
      }
      SplitStep(bytes, done, offset);
      ghost var more := done + [point];
      PointsAreScalar(bytes, next);
      ExpandJoin(more, Points(bytes, next).0);
      if point <= 0xFFFF {
        if units == idx {
          return point as Unit;
        }
        units := units + 1;
      } else {
        var high, low := High(point), Low(point);
        if units == idx {
          return high;
        }
        units := units + 1;
        if units == idx {
          return low;
        }
        units := units + 1;
      }
      done := more;
      offset := next;
    }
    NoCharAtEnd(bytes);
    assert done + [] == done;
    return 0;
  }

  // ---------------------------------------------------------------- from UTF-16 to UTF-8

  predicate IsHigh(u: Unit) {
    0xD800 <= u <= 0xDBFF
  }

  predicate IsLow(u: Unit) {
    0xDC00 <= u <= 0xDFFF
  }

  function Pair(high: Unit, low: Unit): Point {
    ((((high as Point) - 0xD800) << 10) | ((low as Point) - 0xDC00)) + 0x1_0000
  }

  lemma PairIs(high: Unit, low: Unit)
    requires IsHigh(high) && IsLow(low)
    ensures var p := Pair(high, low); 0x1_0000 <= p <= 0x10FFFF && High(p) == high && Low(p) == low
  {
  }

  lemma LoneIs(u: Unit)
    ensures var p := u as Point; p <= 0xFFFF && p as Unit == u && (Surrogate(p) <==> IsHigh(u) || IsLow(u))
  {
  }

  /** A high surrogate takes the low one behind it along; any other unit stands for itself. */
  predicate PairAt(units: seq<Unit>, i: nat)
    requires i < |units|
  {
    IsHigh(units[i]) && i + 1 < |units| && IsLow(units[i + 1])
  }

  function PointAt(units: seq<Unit>, i: nat): (p: Point)
    requires i < |units|
    ensures p <= 0x10FFFF
  {
    if PairAt(units, i) then
      PairIs(units[i], units[i + 1]);
      Pair(units[i], units[i + 1])
    else
      LoneIs(units[i]);
      units[i] as Point
  }

  function NextAt(units: seq<Unit>, i: nat): nat
    requires i < |units|
  {
    if PairAt(units, i) then i + 2 else i + 1
  }

  /** The code points both writing loops go through. */
  function Points16(units: seq<Unit>, i: nat): (r: seq<Point>)
    requires i <= |units|
    ensures InRange(r)
    decreases |units| - i
  {
    if i == |units| then [] else [PointAt(units, i)] + Points16(units, NextAt(units, i))
  }

  /** Well-formed UTF-16, section 2.2 of RFC 2781: every surrogate is part of a pair. */
  predicate WellFormed(units: seq<Unit>, i: nat)
    requires i <= |units|
    decreases |units| - i
  {
    i == |units|
    || (!IsHigh(units[i]) && !IsLow(units[i]) && WellFormed(units, i + 1))
    || (PairAt(units, i) && WellFormed(units, i + 2))
  }

  predicate AllScalar(points: seq<Point>) {
    forall k :: 0 <= k < |points| ==> Scalar(points[k])
  }

  lemma AllScalarStep(p: Point, rest: seq<Point>)
    ensures AllScalar([p] + rest) == (Scalar(p) && AllScalar(rest))
  {
    if AllScalar([p] + rest) {
      assert ([p] + rest)[0] == p;
      forall k | 0 <= k < |rest| ensures Scalar(rest[k]) { assert ([p] + rest)[k + 1] == rest[k]; }
    }
  }

  /** Expanding the code points gives the units back, surrogates without a partner included. */
  lemma {:induction false} PointsExpandBack(units: seq<Unit>, i: nat)
    requires i <= |units|
    ensures Expand(Points16(units, i)) == units[i..]
    decreases |units| - i
  {
    hide Pair, IsHigh, IsLow, PointAt, Units, Expand;
    if i < |units| {
      var p, next := PointAt(units, i), NextAt(units, i);
      var rest := Points16(units, next);
      PointsExpandBack(units, next);
      ExpandOne(p);
      ExpandJoin([p], rest);
      OneExpandsBack(units, i);
      assert units[i..] == units[i..next] + units[next..];
    } else {
      ExpandNone();
    }
  }

  /** The code points are scalar values exactly when the units are well-formed. */
  lemma {:induction false} PointsScalarIff(units: seq<Unit>, i: nat)
    requires i <= |units|
    ensures AllScalar(Points16(units, i)) <==> WellFormed(units, i)
    decreases |units| - i
  {
    hide Scalar, Pair, High, Low, PointAt, Units, Expand, AllScalar;
    if i < |units| {
      var next := NextAt(units, i);
      PointsScalarIff(units, next);
      AllScalarStep(PointAt(units, i), Points16(units, next));
      OneExpandsBack(units, i);
      assert PairAt(units, i) ==> IsHigh(units[i]);
    } else {
      NoneScalar();
    }
  }

  lemma NoneScalar()
    ensures AllScalar([])
  {
  }

  lemma OneExpandsBack(units: seq<Unit>, i: nat)
    requires i < |units|
    ensures Units(PointAt(units, i)) == units[i..NextAt(units, i)]
    ensures Scalar(PointAt(units, i)) <==> PairAt(units, i) || (!IsHigh(units[i]) && !IsLow(units[i]))
  {
    hide Pair, High, Low, IsHigh, IsLow;
    if PairAt(units, i) {
      PairIs(units[i], units[i + 1]);
    } else {
      LoneIs(units[i]);
    }
  }

  lemma PairOfHalves(p: Point, h: Unit, l: Unit)
    requires 0x1_0000 <= p <= 0x10FFFF && IsHigh(h) && IsLow(l)
    requires h as Point - 0xD800 == (p - 0x1_0000) >> 10 && l as Point - 0xDC00 == (p - 0x1_0000) & 0x3FF
    ensures Pair(h, l) == p
  {
  }

  lemma HighHalf(p: Point, h: Unit)
    requires 0x1_0000 <= p <= 0x10FFFF && h == High(p)
    ensures IsHigh(h) && h as Point - 0xD800 == (p - 0x1_0000) >> 10
  {
  }

  lemma LowHalf(p: Point, l: Unit)
    requires 0x1_0000 <= p <= 0x10FFFF && l == Low(p)
    ensures IsLow(l) && l as Point - 0xDC00 == (p - 0x1_0000) & 0x3FF
  {
  }

  lemma SplitIsPair(p: Point)
    requires 0x1_0000 <= p <= 0x10FFFF
    ensures IsHigh(High(p)) && IsLow(Low(p)) && Pair(High(p), Low(p)) == p
  {
    var h, l := High(p), Low(p);
    hide High, Low, IsHigh, IsLow, Pair;
    HighHalf(p, h);
    LowHalf(p, l);
    PairOfHalves(p, h, l);
  }

  lemma OneComesBack(units: seq<Unit>, i: nat, p: Point)
    requires Scalar(p) && i + |Units(p)| <= |units| && units[i..i + |Units(p)|] == Units(p)
    ensures i < |units| && PointAt(units, i) == p && NextAt(units, i) == i + |Units(p)|
    ensures PairAt(units, i) || (!IsHigh(units[i]) && !IsLow(units[i]))
  {
    hide High, Low, Pair, IsHigh, IsLow;
    var w := units[i..i + |Units(p)|];
    assert w[0] == units[i];
    if p <= 0xFFFF {
      LowUnit(p);
    } else {
      assert w[1] == units[i + 1];
      SplitIsPair(p);
    }
  }

  lemma LowUnit(p: Point)
    requires Scalar(p) && p <= 0xFFFF
    ensures (p as Unit) as Point == p && !IsHigh(p as Unit) && !IsLow(p as Unit)
  {
  }

  /** The UTF-16 of scalar values is well-formed, behind any text, and the writing loops find just these values. */
  lemma {:induction false} ScalarsComeBack(front: seq<Unit>, points: seq<Point>)
    requires AllScalar(points)
    ensures InRange(points)
    ensures var units := front + Expand(points);
            WellFormed(units, |front|) && Points16(units, |front|) == points
    decreases |points|
  {
    hide Scalar, PointAt, NextAt, PairAt, Units, IsHigh, IsLow;
    AreInRange(points);
    if points == [] {
      ExpandNone();
    } else {
      var p, rest := points[0], points[1..];
      assert points == [p] + rest;
      AllScalarStep(p, rest);
      AreInRange([p]);
      AreInRange(rest);
      ExpandOne(p);
      ExpandJoin([p], rest);
      var units := front + Expand(points);
      assert units == front + Units(p) + Expand(rest);
      ScalarsComeBack(front + Units(p), rest);
      assert units[|front|..|front| + |Units(p)|] == Units(p);
      OneComesBack(units, |front|, p);
      PassesPair(units, |front|);
    }
  }

  lemma PassesPair(units: seq<Unit>, i: nat)
    requires i < |units|
    ensures NextAt(units, i) == (if PairAt(units, i) then i + 2 else i + 1) <= |units|
  {
  }

  lemma AreInRange(points: seq<Point>)
    requires AllScalar(points)
    ensures InRange(points)
  {
  }

  /** The bytes of a sequence of code points. */
  function Encode(points: seq<Point>): seq<Byte>
    requires InRange(points)
  {
    if points == [] then [] else Encode(points[..|points| - 1]) + CharOf(points[|points| - 1])
  }

  lemma {:induction false} EncodeJoin(a: seq<Point>, b: seq<Point>)
    requires InRange(a) && InRange(b)
    ensures InRange(a + b) && Encode(a + b) == Encode(a) + Encode(b)
    decreases |b|
  {
    hide CharOf;
    if b == [] {
      assert a + b == a;
    } else {
      var rest := b[..|b| - 1];
      assert (a + b)[..|a + b| - 1] == a + rest;
      EncodeJoin(a, rest);
    }
  }

  lemma EncodeOne(p: Point)
    requires p <= 0x10FFFF
    ensures InRange([p]) && Encode([p]) == CharOf(p) && Encode([]) == []
  {
    hide CharOf;
    assert [p][..0] == [];
    assert Encode([]) == [];
  }

  /** Decoding an encoding stops at the first code point that is not a scalar value. */
  lemma {:induction false} DecodesWhatWasEncoded(bytes: seq<Byte>, o: nat, points: seq<Point>)
    requires InRange(points) && o <= |bytes| && bytes[o..] == Encode(points)
    ensures Accepted(bytes, o) <==> AllScalar(points)
    ensures AllScalar(points) ==> Points(bytes, o).0 == points
    decreases |points|
  {
    hide IsChar, PointOf, CharAt, CharOf, Scalar;
    if points == [] {
      EncodeOne(0);
      NoCharAtEnd(bytes);
    } else {
      var p, rest := points[0], points[1..];
      assert points == [p] + rest;
      EncodeOne(p);
      EncodeJoin([p], rest);
      AllScalarStep(p, rest);
      var n := SizeOf(p);
      FirstEncoded(bytes, o, p, Encode(rest));
      if Scalar(p) {
        DecodesWhatWasEncoded(bytes, o + n, rest);
      }
    }
  }

  lemma FirstEncoded(bytes: seq<Byte>, o: nat, p: Point, tail: seq<Byte>)
    requires p <= 0x10FFFF && o <= |bytes| && bytes[o..] == CharOf(p) + tail
    ensures o + SizeOf(p) <= |bytes| && bytes[o + SizeOf(p)..] == tail
    ensures if Scalar(p) then CharAt(bytes, o) == Some(SizeOf(p)) && PointOf(bytes[o..o + SizeOf(p)]) == p
            else CharAt(bytes, o).None?
  {
    hide IsChar, PointOf, CharAt, CharOf, Scalar;
    var n := SizeOf(p);
    var w := bytes[o..];
    assert w[..n] == CharOf(p) && w[n..] == tail;
    assert bytes[o..o + n] == w[..n] && bytes[o + n..] == w[n..];
    CharOfIsChar(p);
    if Scalar(p) {
      CharAtIs(bytes, o, n);
    } else {
      SurrogateLead(p);
      SurrogateIsNoChar(bytes, o, p);
    }
  }

  lemma SurrogateIsNoChar(bytes: seq<Byte>, o: nat, p: Point)
    requires p <= 0x10FFFF && !Scalar(p) && o + 3 <= |bytes| && bytes[o..o + 3] == CharOf(p)
    ensures CharAt(bytes, o).None?
  {
    CharOfIsChar(p);
    Slices(bytes, o);
    SurrogateLead(p);
    assert bytes[o] == bytes[o..o + 3][0];
    LeadByte(bytes[o]);
    hide Is1, Is2, Is3, Is4, Value1, Value2, Value3, Value4, PointOf, Lead3, Tail0, Tail6;
  }

  lemma SurrogateLead(p: Point)
    requires p <= 0x10FFFF && !Scalar(p)
    ensures SizeOf(p) == 3 && Lead3(p) == 0xED
  {
  }

  /** The string's UTF-8 form decodes back to the same units exactly when the units are well-formed
      UTF-16; otherwise it is not UTF-8 at all. */
  lemma {:induction false} RoundTrip(units: seq<Unit>)
    ensures var bytes := Encode(Points16(units, 0));
            && InRange(Points(bytes, 0).0)
            && (Accepted(bytes, 0) <==> WellFormed(units, 0))
            && (WellFormed(units, 0) ==> Expand(Points(bytes, 0).0) == units)
  {
    hide WellFormed, Points16, Points, Encode, Expand, AllScalar;
    var points := Points16(units, 0);
    var bytes := Encode(points);
    assert bytes[0..] == bytes && units[0..] == units;
    PointsExpandBack(units, 0);
    PointsScalarIff(units, 0);
    PointsAreScalar(bytes, 0);
    DecodesWhatWasEncoded(bytes, 0, points);
  }

  /** A surrogate without a partner, and what comes of it. */
  lemma LoneSurrogateIsLost()
    ensures !Accepted(Encode(Points16([0xD800], 0)), 0) && !WellFormed([0xD800], 0)
  {
    RoundTrip([0xD800]);
  }

  // ---------------------------------------------------------------- the writing loops

  lemma {:induction false} EncodeSize(units: seq<Unit>, i: nat)
    requires i < |units|
    ensures |Encode(Points16(units, i))| == SizeOf(PointAt(units, i)) + |Encode(Points16(units, NextAt(units, i)))|
  {
    hide CharOf, PointAt;
    var p := PointAt(units, i);
    EncodeOne(p);
    EncodeJoin([p], Points16(units, NextAt(units, i)));
  }

  /** One code point off the units, as both loops take it. */
  method TakePoint(units: seq<Unit>, i: nat) returns (point: Point, next: nat)
    requires i < |units|
    ensures point == PointAt(units, i) && next == NextAt(units, i)
  {
    point, next := units[i] as Point, i + 1;
    LoneIs(units[i]);
    if IsHigh(units[i]) && next < |units| {
      var low := units[next];
      if IsLow(low) {
        next := next + 1;
        point := Pair(units[i], low);
      }
    }
  }

  /** sf_string_utf16_utf8_size: the number of bytes the writing loop will produce. */
  method Utf8Size(units: seq<Unit>) returns (size: nat)
    ensures size == |Encode(Points16(units, 0))|
  {
    hide Encode, CharOf, PointAt;
    size := 0;
    var i := 0;
    while i < |units|
      invariant i <= |units| && size + |Encode(Points16(units, i))| == |Encode(Points16(units, 0))|
      decreases |units| - i
    {
      EncodeSize(units, i);
      var point, next := TakePoint(units, i);
      i := next;
      if point <= 0x7F {
        size := size + 1;
      } else if point <= 0x7FF {
        size := size + 2;
      } else if point <= 0xFFFF {
        size := size + 3;
      } else {
        size := size + 4;
      }
    }
    EncodeOne(0);
  }

  /** The thread's buffer, which grows when it must and is never shrunk. */
  class Utf8Buffer {
    var buffer: array<Byte>

    constructor ()
      ensures fresh(buffer) && buffer.Length == 0
    {
      buffer := new Byte[0];
    }

    /** sf_string_append_utf8. */
    method Append(offset: nat, point: Point) returns (end: nat)
      requires point <= 0x10FFFF && offset + SizeOf(point) <= buffer.Length
      modifies buffer
      ensures end == offset + SizeOf(point)
      ensures buffer[..end] == old(buffer[..offset]) + CharOf(point)
    {
      hide Lead2, Lead3, Lead4, Tail0, Tail6, Tail12;
      ghost var before := buffer[..offset];
      if point <= 0x7F {
        buffer[offset] := point as Byte;
      } else if point <= 0x7FF {
        buffer[offset] := Lead2(point);
        buffer[offset + 1] := Tail0(point);
      } else if point <= 0xFFFF {
        buffer[offset] := Lead3(point);
        buffer[offset + 1] := Tail6(point);
        buffer[offset + 2] := Tail0(point);
      } else {
        buffer[offset] := Lead4(point);
        buffer[offset + 1] := Tail12(point);
        buffer[offset + 2] := Tail6(point);
        buffer[offset + 3] := Tail0(point);
      }
      end := offset + SizeOf(point);
      assert buffer[..offset] == before;
      assert buffer[offset..end] == CharOf(point);
      assert buffer[..end] == buffer[..offset] + buffer[offset..end];
    }

    /** sf_string_thread_utf8_buffer: the buffer holds the encoded text and a NUL, or nothing was written
        because there was no room for them. */
    method Fill(units: seq<Unit>, room: bool) returns (ok: bool, length: nat)
      modifies this, buffer
      ensures ok <==> room || |Encode(Points16(units, 0))| + 1 <= old(buffer.Length)
      ensures ok ==> length < buffer.Length && buffer[..length] == Encode(Points16(units, 0)) && buffer[length] == 0
      ensures !ok ==> buffer == old(buffer) && buffer[..] == old(buffer[..])
      ensures buffer == old(buffer) || fresh(buffer)
      ensures buffer.Length >= old(buffer.Length)
    {
      hide Encode, CharOf;
      var size := Utf8Size(units);
      var needed := size + 1;
      if needed > buffer.Length {
        if !room {
          return false, 0;
        }
        buffer := new Byte[needed];
      }
      var offset: nat, i: nat := 0, 0;
      ghost var target := buffer;
      EncodeStart(units);
      while i < |units|
        invariant i <= |units| && buffer == target && offset < needed <= buffer.Length
        invariant buffer[..offset] + Encode(Points16(units, i)) == Encode(Points16(units, 0))
        decreases |units| - i
      {
        EncodeStep(units, i, buffer[..offset]);
        var point, next := TakePoint(units, i);
        i := next;
        offset := Append(offset, point);
      }
      EncodeOne(0);
      assert buffer[..offset] + [] == buffer[..offset];
      buffer[offset] := 0;
      return true, offset;
    }
  }

  lemma {:induction false} EncodeStart(units: seq<Unit>)
    ensures [] + Encode(Points16(units, 0)) == Encode(Points16(units, 0))
  {
  }

  lemma {:induction false} EncodeStep(units: seq<Unit>, i: nat, before: seq<Byte>)
    requires i < |units| && before + Encode(Points16(units, i)) == Encode(Points16(units, 0))
    ensures before + CharOf(PointAt(units, i)) + Encode(Points16(units, NextAt(units, i))) == Encode(Points16(units, 0))
    ensures |before| + SizeOf(PointAt(units, i)) <= |Encode(Points16(units, 0))|
  {
    hide CharOf, PointAt;
    var p, rest := PointAt(units, i), Points16(units, NextAt(units, i));
    EncodeOne(p);
    EncodeJoin([p], rest);
    assert before + (CharOf(p) + Encode(rest)) == before + CharOf(p) + Encode(rest);
  }
}

/** The language-specific data area: encoded pointers, the call-site search and the action-chain walk.
    Memory is a sequence of bytes indexed by address; address 0 is the null pointer and words are
    little-endian. */
module Lsda {

  import opened Wrappers
  import opened Leb

  type Mem = s: seq<byte> | |s| <= TWO64 witness []

  const OMIT: byte := 0xFF

  // ---------------------------------------------------------------- encoded pointers

  /** The formats the reader knows; any other one aborts the process. */
  predicate Supported(enc: byte) {
    enc == OMIT || enc % 16 <= 4 || 9 <= enc % 16 <= 12
  }

  predicate IsLebFormat(enc: byte) {
    enc % 16 == 1 || enc % 16 == 9
  }

  predicate PcRelative(enc: byte) {
    enc / 16 % 8 == 1
  }

  predicate Indirect(enc: byte) {
    enc / 128 % 2 == 1
  }

  /** encoding_size: the stride of the type table, also for formats of no fixed width. */
  function EncodingSize(enc: byte): nat {
    match enc % 16
    case 2 => 2
    case 10 => 2
    case 3 => 4
    case 11 => 4
    case _ => 8
  }

  /** The little-endian number in `n` bytes. */
  function Le(mem: seq<byte>, p: nat, n: nat): (r: nat)
    requires p + n <= |mem|
    ensures r < Pow2(8 * n)
    decreases n
  {
    if n == 0 then 0
    else
      assert Pow2(8 * n) == 256 * Pow2(8 * (n - 1)) by { PowSum(8, 8 * (n - 1)); assert Pow2(8) == 256; }
      mem[p] + 256 * Le(mem, p + 1, n - 1)
  }

  /** An unsigned number of the given width read as a signed one and widened to a word. */
  function Widened(v: nat, size: nat): int {
    if v < Pow2(8 * size) / 2 then v else (v - Pow2(8 * size)) % TWO64
  }

  predicate PlainReadable(mem: Mem, p: nat, enc: byte) {
    && Supported(enc) && enc != OMIT
    && if IsLebFormat(enc) then Terminated(mem, p) else p + EncodingSize(enc) <= |mem|
  }

  function PlainValue(mem: Mem, p: nat, enc: byte): int
    requires PlainReadable(mem, p, enc)
  {
    if enc % 16 == 1 then Unsigned(mem[p..End(mem, p)]) % TWO64
    else if enc % 16 == 9 then Signed(mem[p..End(mem, p)]) % TWO64
    else if enc % 16 >= 10 then Widened(Le(mem, p, EncodingSize(enc)), EncodingSize(enc))
    else Le(mem, p, EncodingSize(enc))
  }

  function Located(mem: Mem, p: nat, enc: byte): int
    requires PlainReadable(mem, p, enc)
  {
    if PcRelative(enc) then (PlainValue(mem, p, enc) + p) % TWO64 else PlainValue(mem, p, enc)
  }

  /** Every byte the read touches exists. */
  predicate Readable(mem: Mem, p: nat, enc: byte) {
    enc == OMIT
    || (PlainReadable(mem, p, enc) && (Indirect(enc) ==>
      0 <= Located(mem, p, enc) && Located(mem, p, enc) + 8 <= |mem|))
  }

  function EncodedEnd(mem: Mem, p: nat, enc: byte): (q: nat)
    requires Readable(mem, p, enc)
  {
    if enc == OMIT then p else if IsLebFormat(enc) then End(mem, p) else p + EncodingSize(enc)
  }

  function EncodedValue(mem: Mem, p: nat, enc: byte): int
    requires Readable(mem, p, enc)
  {
    if enc == OMIT then 0
    else if Indirect(enc) then Le(mem, Located(mem, p, enc), 8)
    else Located(mem, p, enc)
  }

  lemma ValueIsWord(mem: Mem, p: nat, enc: byte)
    requires Readable(mem, p, enc)
    ensures 0 <= EncodedValue(mem, p, enc) < TWO64
  {
    hide Sum;
    Pow64();
    if enc != OMIT {
      if !IsLebFormat(enc) {
        PowOrder(8 * EncodingSize(enc), 64);
      }
    }
  }

  /** The low four bits are the format, the three above it say what is added, and the top one asks for the word the
      sum points at. */
  lemma {:induction false} EncodedMeans(mem: Mem, p: nat, enc: byte)
    requires Readable(mem, p, enc)
    ensures enc == 0xFF ==> EncodedValue(mem, p, enc) == 0 && EncodedEnd(mem, p, enc) == p
    ensures enc != 0xFF ==>
              var plain := PlainValue(mem, p, enc);
              var relative := 0x10 <= enc < 0x20 || 0x90 <= enc < 0xA0;
              var sum := if relative then (plain + p) % 0x1_0000_0000_0000_0000 else plain;
              if enc < 0x80 then EncodedValue(mem, p, enc) == sum
              else 0 <= sum && sum + 8 <= |mem| && EncodedValue(mem, p, enc) == Le(mem, sum, 8)
  {
    hide PlainValue, Le, PlainReadable, Pow2;
    Pow64();
  }

  /** The nine formats: a word, the two LEB128 numbers, and two, four or eight bytes without and with a sign. */
  lemma {:induction false} FormatsMean(mem: Mem, p: nat, enc: byte)
    requires Readable(mem, p, enc) && enc != 0xFF
    ensures var (format, v, end) := (enc % 16, PlainValue(mem, p, enc), EncodedEnd(mem, p, enc));
            && format in {0, 1, 2, 3, 4, 9, 10, 11, 12}
            && (format == 1 ==> Terminated(mem, p) && v == Unsigned(mem[p..End(mem, p)]) % 0x1_0000_0000_0000_0000)
            && (format == 9 ==> Terminated(mem, p) && v == Signed(mem[p..End(mem, p)]) % 0x1_0000_0000_0000_0000)
            && (format in {1, 9} ==> end == End(mem, p))
            && (format in {2, 10} ==> end == p + 2 <= |mem|)
            && (format in {3, 11} ==> end == p + 4 <= |mem|)
            && (format in {0, 4, 12} ==> end == p + 8 <= |mem| && v == Le(mem, p, 8))
            && (format == 2 ==> v == Le(mem, p, 2))
            && (format == 3 ==> v == Le(mem, p, 4))
            && (format == 10 ==> v == Le(mem, p, 2) + if mem[p + 1] < 0x80 then 0 else 0xFFFF_FFFF_FFFF_0000)
            && (format == 11 ==> v == Le(mem, p, 4) + if mem[p + 3] < 0x80 then 0 else 0xFFFF_FFFF_0000_0000)
  {
    hide Le, Pow2, Unsigned, Signed, Terminated, End;
    Pow64();
    if enc % 16 == 10 { BytesOfTwo(mem, p); PowersAre(); }
    if enc % 16 == 11 { BytesOfFour(mem, p); PowersAre(); }
    if enc % 16 == 12 { BytesOfEight(mem, p); PowersAre(); }
  }

  lemma {:induction false} PowersAre()
    ensures Pow2(16) == 0x1_0000 && Pow2(32) == 0x1_0000_0000 && Pow2(64) == 0x1_0000_0000_0000_0000
  {
    assert Pow2(8) == 256;
    PowSum(8, 8);
    PowSum(16, 16);
    PowSum(32, 32);
  }

  lemma {:induction false} BytesOfTwo(mem: Mem, p: nat)
    requires p + 2 <= |mem|
    ensures Le(mem, p, 2) == mem[p] + 0x100 * (mem[p + 1] as int)
  {
    assert Le(mem, p + 1, 1) == mem[p + 1] + 256 * Le(mem, p + 2, 0);
  }

  lemma {:induction false} BytesOfFour(mem: Mem, p: nat)
    requires p + 4 <= |mem|
    ensures Le(mem, p, 4) == mem[p] + 0x100 * (mem[p + 1] as int) + 0x1_0000 * (mem[p + 2] as int)
            + 0x100_0000 * (mem[p + 3] as int)
  {
    BytesOfTwo(mem, p + 2);
    assert Le(mem, p, 4) == mem[p] + 256 * Le(mem, p + 1, 3);
    assert Le(mem, p + 1, 3) == mem[p + 1] + 256 * Le(mem, p + 2, 2);
  }

  lemma {:induction false} BytesOfEight(mem: Mem, p: nat)
    requires p + 8 <= |mem|
    ensures Le(mem, p, 8) == Le(mem, p, 4) + 0x1_0000_0000 * Le(mem, p + 4, 4)
  {
    BytesOfFour(mem, p);
    assert Le(mem, p, 8) == mem[p] + 256 * Le(mem, p + 1, 7);
    assert Le(mem, p + 1, 7) == mem[p + 1] + 256 * Le(mem, p + 2, 6);
    assert Le(mem, p + 2, 6) == mem[p + 2] + 256 * Le(mem, p + 3, 5);
    assert Le(mem, p + 3, 5) == mem[p + 3] + 256 * Le(mem, p + 4, 4);
  }

  /** The format switch of read_encoded. */
  method ReadPlain(mem: Mem, p: nat, enc: byte) returns (aborted: bool, value: int, next: nat)
    requires enc != OMIT && (Supported(enc) ==> PlainReadable(mem, p, enc))
    ensures aborted <==> enc % 16 !in {0, 1, 2, 3, 4, 9, 10, 11, 12}
    ensures !aborted ==>
              value == PlainValue(mem, p, enc)
              && next == (if IsLebFormat(enc) then End(mem, p) else p + EncodingSize(enc))
  {
    hide Sum, Pow2, Le, IsLeb, Terminated, Widened;
    aborted, value, next := false, 0, p;
    var format := enc % 16;
    if format == 0 || format == 4 {
      value, next := Le(mem, p, 8), p + 8;
    } else if format == 1 {
      value, next := ReadUleb(mem, p);
    } else if format == 2 {
      value, next := Le(mem, p, 2), p + 2;
    } else if format == 3 {
      value, next := Le(mem, p, 4), p + 4;
    } else if format == 9 {
      value, next := ReadSleb(mem, p);
      value := value % TWO64;
    } else if format == 10 {
      value, next := Widened(Le(mem, p, 2), 2), p + 2;
    } else if format == 11 {
      value, next := Widened(Le(mem, p, 4), 4), p + 4;
    } else if format == 12 {
      value, next := Widened(Le(mem, p, 8), 8), p + 8;
    } else {
      aborted := true;
    }
  }

  /** read_encoded. */
  method ReadEncoded(mem: Mem, p: nat, enc: byte) returns (aborted: bool, value: int, next: nat)
    requires Supported(enc) ==> Readable(mem, p, enc)
    ensures aborted <==> enc != 0xFF && enc % 16 !in {0, 1, 2, 3, 4, 9, 10, 11, 12}
    ensures !aborted ==> value == EncodedValue(mem, p, enc) && next == EncodedEnd(mem, p, enc) && 0 <= value < TWO64
  {
    hide PlainValue, PlainReadable, Le, IsLebFormat, EncodingSize, Pow2, IsLeb;
    aborted, value, next := false, 0, p;
    if enc == OMIT {
      return;
    }
    aborted, value, next := ReadPlain(mem, p, enc);
    if aborted {
      return;
    }
    if PcRelative(enc) {
      value := (value + p) % TWO64;
    }
    if Indirect(enc) {
      value := Le(mem, value, 8);
    }
    ValueIsWord(mem, p, enc);
  }

  // ---------------------------------------------------------------- the abstract table

  /** The type indices of an action chain, in chain order: positive for a handler's type, zero for a
      cleanup, negative for a filter. */
  type Chain = seq<int>

  datatype Site = Site(start: int, len: int, pad: int, action: nat, chain: Chain)

  /** `types` names the type of each index; a null entry has no name. */
  datatype Table = Table(lpStart: Option<int>, types: Option<map<int, Option<string>>>, sites: seq<Site>)

  /** An exception is resolved to the names of its object's class and superclasses, or not at all. */
  type Thrown = Option<seq<Option<string>>>

  datatype Landing = Landing(pad: int, selector: int, cleanup: bool, handler: bool)

  predicate Catches(exc: Thrown, name: Option<string>) {
    exc.Some? && name.Some? && (name.value == "@id" || Some(name.value) in exc.value)
  }

  predicate Covers(s: Site, offset: int) {
    s.start <= offset < (s.start + s.len) % TWO64
  }

  predicate Hits(t: Table, chain: Chain, exc: Thrown, k: nat) {
    && k < |chain| && chain[k] > 0 && t.types.Some? && chain[k] in t.types.value
    && Catches(exc, t.types.value[chain[k]])
  }

  /** The first handler of the chain that catches, and whether a cleanup record came before it. */
  function Walk(t: Table, chain: Chain, exc: Thrown, cleanup: bool): (Option<int>, bool) {
    if chain == [] then (None, cleanup)
    else if Hits(t, chain, exc, 0) then (Some(chain[0]), cleanup)
    else Walk(t, chain[1..], exc, cleanup || chain[0] == 0)
  }

  /** The index narrowed to an int. */
  function ToInt32(x: int): int {
    var w := x % 0x1_0000_0000;
    if w < 0x8000_0000 then w else w - 0x1_0000_0000
  }

  /** What a covering call site answers. */
  function Answer(t: Table, s: Site, funcStart: int, exc: Thrown): Option<Landing> {
    if s.pad == 0 then None
    else
      var pad := ((if t.lpStart.Some? then t.lpStart.value else funcStart) + s.pad) % TWO64;
      if s.action == 0 then Some(Landing(pad, 0, true, false))
      else
        var (handler, cleanup) := Walk(t, s.chain, exc, false);
        if handler.Some? then Some(Landing(pad, ToInt32(handler.value), cleanup, true))
        else if cleanup then Some(Landing(pad, 0, true, false))
        else None
  }

  function Search(t: Table, sites: seq<Site>, offset: int, funcStart: int, exc: Thrown): Option<Landing> {
    if sites == [] then None
    else if Covers(sites[0], offset) then Answer(t, sites[0], funcStart, exc)
    else Search(t, sites[1..], offset, funcStart, exc)
  }

  /** The return address points past the call, so one is taken off it unless it is the function's first
      byte. */
  function Offset(funcStart: int, ip: int): int {
    ((if ip > funcStart then ip - 1 else ip) - funcStart) % TWO64
  }

  function Resolve(t: Table, funcStart: int, ip: int, exc: Thrown): Option<Landing> {
    Search(t, t.sites, Offset(funcStart, ip), funcStart, exc)
  }

  /** The search is for the first covering site. */
  lemma {:induction false} SearchIsFirst(t: Table, sites: seq<Site>, offset: int, funcStart: int, exc: Thrown, k: nat)
    requires k < |sites| && Covers(sites[k], offset) && forall j :: 0 <= j < k ==> !Covers(sites[j], offset)
    ensures Search(t, sites, offset, funcStart, exc) == Answer(t, sites[k], funcStart, exc)
  {
    if k > 0 {
      assert !Covers(sites[0], offset);
      forall j | 0 <= j < k - 1 ensures !Covers(sites[1..][j], offset) { assert !Covers(sites[j + 1], offset); }
      SearchIsFirst(t, sites[1..], offset, funcStart, exc, k - 1);
    }
  }

  lemma {:induction false} UncoveredIsUnwound(t: Table, sites: seq<Site>, offset: int, funcStart: int, exc: Thrown)
    requires forall j :: 0 <= j < |sites| ==> !Covers(sites[j], offset)
    ensures Search(t, sites, offset, funcStart, exc) == None
  {
    if sites != [] {
      assert !Covers(sites[0], offset);
      forall j | 0 <= j < |sites[1..]| ensures !Covers(sites[1..][j], offset) { assert !Covers(sites[j + 1], offset); }
      UncoveredIsUnwound(t, sites[1..], offset, funcStart, exc);
    }
  }

  /** The walk stops at the first record that catches, and reports a cleanup exactly when one of the
      records before it is a cleanup. */
  lemma {:induction false} WalkStopsAtFirst(t: Table, chain: Chain, exc: Thrown, cleanup: bool, k: nat)
    requires Hits(t, chain, exc, k) && forall j :: 0 <= j < k ==> !Hits(t, chain, exc, j)
    ensures Walk(t, chain, exc, cleanup) == (Some(chain[k]), cleanup || 0 in chain[..k])
  {
    if k > 0 {
      var rest := chain[1..];
      assert !Hits(t, chain, exc, 0);
      assert Hits(t, rest, exc, k - 1);
      forall j | 0 <= j < k - 1 ensures !Hits(t, rest, exc, j) { assert !Hits(t, chain, exc, j + 1); }
      WalkStopsAtFirst(t, rest, exc, cleanup || chain[0] == 0, k - 1);
      assert chain[..k] == [chain[0]] + rest[..k - 1];
    }
  }

  lemma {:induction false} WalkToTheEnd(t: Table, chain: Chain, exc: Thrown, cleanup: bool)
    requires forall j: nat :: !Hits(t, chain, exc, j)
    ensures Walk(t, chain, exc, cleanup) == (None, cleanup || 0 in chain)
  {
    if chain != [] {
      var rest := chain[1..];
      forall j: nat ensures !Hits(t, rest, exc, j) { assert !Hits(t, chain, exc, j + 1); }
      WalkToTheEnd(t, rest, exc, cleanup || chain[0] == 0);
      assert chain == [chain[0]] + rest;
    }
  }

  /** The call before a return address `ip` of the function at `funcStart`, or its first byte, lies in the site. */
  predicate CallIn(s: Site, funcStart: int, ip: int) {
    if ip == funcStart then s.start == 0 && s.len > 0 else s.start <= ip - 1 - funcStart < s.start + s.len
  }

  /** Without wrapping, the offset is that of the byte before the return address. */
  lemma {:induction false} CallInCovers(s: Site, funcStart: int, ip: int)
    requires 0 <= funcStart <= ip < TWO64 && 0 <= s.start && 0 <= s.len && s.start + s.len < TWO64
    ensures Covers(s, Offset(funcStart, ip)) <==> CallIn(s, funcStart, ip)
  {
  }

  /** The sites of a table do not wrap. */
  predicate Unwrapped(sites: seq<Site>) {
    forall j :: 0 <= j < |sites| ==> 0 <= sites[j].start && 0 <= sites[j].len && sites[j].start + sites[j].len < TWO64
  }

  lemma {:induction false} FirstSiteAnswers(t: Table, funcStart: int, ip: int, exc: Thrown, k: nat)
    requires 0 <= funcStart <= ip < TWO64 && k < |t.sites| && Unwrapped(t.sites)
    requires CallIn(t.sites[k], funcStart, ip) && forall j :: 0 <= j < k ==> !CallIn(t.sites[j], funcStart, ip)
    ensures Resolve(t, funcStart, ip, exc) == Answer(t, t.sites[k], funcStart, exc)
  {
    hide Answer, Search;
    forall j | 0 <= j <= k ensures Covers(t.sites[j], Offset(funcStart, ip)) <==> j == k {
      CallInCovers(t.sites[j], funcStart, ip);
    }
    SearchIsFirst(t, t.sites, Offset(funcStart, ip), funcStart, exc, k);
  }

  /** Where a frame lands whose call lies in site `k` and in none before it: nowhere without a landing pad; otherwise
      at the pad, counted from the landing-pad base or the function, to clean up if the site has no actions. */
  lemma {:induction false} LandsAtSite(t: Table, funcStart: int, ip: int, exc: Thrown, k: nat)
    requires 0 <= funcStart <= ip < TWO64 && k < |t.sites| && Unwrapped(t.sites)
    requires CallIn(t.sites[k], funcStart, ip) && forall j :: 0 <= j < k ==> !CallIn(t.sites[j], funcStart, ip)
    ensures var (s, r) := (t.sites[k], Resolve(t, funcStart, ip, exc));
            var base := if t.lpStart.Some? then t.lpStart.value else funcStart;
            && (s.pad == 0 ==> r == None)
            && (s.pad != 0 && s.action == 0 ==> r == Some(Landing((base + s.pad) % TWO64, 0, true, false)))
  {
    hide Resolve;
    FirstSiteAnswers(t, funcStart, ip, exc, k);
  }

  lemma {:induction false} LandsNowhere(t: Table, funcStart: int, ip: int, exc: Thrown)
    requires 0 <= funcStart <= ip < TWO64 && Unwrapped(t.sites)
    requires forall j :: 0 <= j < |t.sites| ==> !CallIn(t.sites[j], funcStart, ip)
    ensures Resolve(t, funcStart, ip, exc) == None
  {
    forall j | 0 <= j < |t.sites| ensures !Covers(t.sites[j], Offset(funcStart, ip)) {
      CallInCovers(t.sites[j], funcStart, ip);
    }
    UncoveredIsUnwound(t, t.sites, Offset(funcStart, ip), funcStart, exc);
  }

  /** With actions it lands for the first record of the chain that catches, after a cleanup if a record before it is
      one. */
  lemma {:induction false} LandsForHandler(t: Table, funcStart: int, ip: int, exc: Thrown, k: nat, j: nat)
    requires 0 <= funcStart <= ip < TWO64 && k < |t.sites| && Unwrapped(t.sites)
    requires CallIn(t.sites[k], funcStart, ip) && forall i :: 0 <= i < k ==> !CallIn(t.sites[i], funcStart, ip)
    requires t.sites[k].pad != 0 && t.sites[k].action != 0 && Hits(t, t.sites[k].chain, exc, j)
    requires forall i :: 0 <= i < j ==> !Hits(t, t.sites[k].chain, exc, i)
    ensures var (s, base) := (t.sites[k], if t.lpStart.Some? then t.lpStart.value else funcStart);
            var selector := ToInt32(s.chain[j]);
            && Resolve(t, funcStart, ip, exc) ==
               Some(Landing((base + s.pad) % TWO64, selector, 0 in s.chain[..j], true))
            && -0x8000_0000 <= selector < 0x8000_0000 && (selector - s.chain[j]) % 0x1_0000_0000 == 0
  {
    hide Resolve, Walk, Hits, ToInt32;
    FirstSiteAnswers(t, funcStart, ip, exc, k);
    WalkStopsAtFirst(t, t.sites[k].chain, exc, false, j);
    HitIsPositive(t, t.sites[k].chain, exc, j);
    NarrowedIs(t.sites[k].chain[j]);
  }

  lemma NarrowedIs(x: int)
    ensures -0x8000_0000 <= ToInt32(x) < 0x8000_0000 && (ToInt32(x) - x) % 0x1_0000_0000 == 0
  {
    var w := x % 0x1_0000_0000;
    assert x == x / 0x1_0000_0000 * 0x1_0000_0000 + w;
  }

  /** A record catches if its index is positive and its type is "@id" or names the class of the exception or one above
      it; nothing catches an exception that is not resolved. */
  lemma {:induction false} HitIsPositive(t: Table, chain: Chain, exc: Thrown, j: nat)
    ensures Hits(t, chain, exc, j) <==>
            && j < |chain| && chain[j] > 0 && t.types.Some? && chain[j] in t.types.value && exc.Some?
            && (t.types.value[chain[j]] == Some("@id")
                || (t.types.value[chain[j]].Some? && t.types.value[chain[j]] in exc.value))
  {
  }

  /** And if nothing catches, it lands for a cleanup if the chain has one. */
  lemma {:induction false} LandsForCleanup(t: Table, funcStart: int, ip: int, exc: Thrown, k: nat)
    requires 0 <= funcStart <= ip < TWO64 && k < |t.sites| && Unwrapped(t.sites)
    requires CallIn(t.sites[k], funcStart, ip) && forall i :: 0 <= i < k ==> !CallIn(t.sites[i], funcStart, ip)
    requires t.sites[k].pad != 0 && t.sites[k].action != 0
    requires forall i: nat :: !Hits(t, t.sites[k].chain, exc, i)
    ensures var (s, base) := (t.sites[k], if t.lpStart.Some? then t.lpStart.value else funcStart);
            Resolve(t, funcStart, ip, exc) ==
            if 0 in s.chain then Some(Landing((base + s.pad) % TWO64, 0, true, false)) else None
  {
    hide Resolve, Walk, Hits;
    FirstSiteAnswers(t, funcStart, ip, exc, k);
    WalkToTheEnd(t, t.sites[k].chain, exc, false);
  }

  // ---------------------------------------------------------------- the table in memory

  /** What a C string at an address reads. */
  type Names = map<int, string>

  /** The records of a chain, each one linked from the link field of the one before; the last link is
      zero. A finite sequence of indices cannot come from a cyclic chain. */
  predicate ChainAt(mem: Mem, record: nat, chain: Chain)
    decreases |chain|
  {
    && chain != [] && record > 0 && Terminated(mem, record)
    && var link := End(mem, record);
       Terminated(mem, link)
       && chain[0] == ToSigned(Signed(mem[record..link]))
       && var jump := ToSigned(Signed(mem[link..End(mem, link)]));
          if |chain| == 1 then jump == 0
          else jump != 0 && link + jump > 0 && ChainAt(mem, link + jump, chain[1..])
  }

  predicate TypeAt(mem: Mem, names: Names, info: nat, enc: byte, index: int, name: Option<string>) {
    && index > 0 && index * EncodingSize(enc) <= info && Readable(mem, info - index * EncodingSize(enc), enc)
    && var v := EncodedValue(mem, info - index * EncodingSize(enc), enc);
       if v == 0 then name.None? else v in names && name == Some(names[v])
  }

  predicate TypesAt(mem: Mem, names: Names, info: Option<nat>, enc: byte, types: Option<map<int, Option<string>>>) {
    && (info.Some? <==> types.Some?) && (info.Some? ==> enc != OMIT)
    && (types.Some? ==> forall i :: i in types.value ==> TypeAt(mem, names, info.value, enc, i, types.value[i]))
  }

  /** The four fields of a call-site record, and the chain its action points at. */
  predicate SiteAt(mem: Mem, p: nat, end: nat, enc: byte, s: Site) {
    && Readable(mem, p, enc)
    && var p1 := EncodedEnd(mem, p, enc);
       Readable(mem, p1, enc)
       && var p2 := EncodedEnd(mem, p1, enc);
          Readable(mem, p2, enc)
          && var p3 := EncodedEnd(mem, p2, enc);
             && Terminated(mem, p3) && End(mem, p3) <= end
             && s.start == EncodedValue(mem, p, enc) && s.len == EncodedValue(mem, p1, enc)
               && s.pad == EncodedValue(mem, p2, enc)
             && s.action == Unsigned(mem[p3..End(mem, p3)]) % TWO64
             && (s.pad != 0 && s.action != 0 ==> ChainAt(mem, end + s.action - 1, s.chain))
  }

  function SiteEnd(mem: Mem, p: nat, end: nat, enc: byte, s: Site): (q: nat)
    requires SiteAt(mem, p, end, enc, s)
    ensures p < q <= end
  {
    End(mem, EncodedEnd(mem, EncodedEnd(mem, EncodedEnd(mem, p, enc), enc), enc))
  }

  predicate SitesAt(mem: Mem, p: nat, end: nat, enc: byte, sites: seq<Site>)
    decreases |sites|
  {
    if sites == [] then p == end
    else SiteAt(mem, p, end, enc, sites[0]) && SitesAt(mem, SiteEnd(mem, p, end, enc, sites[0]), end, enc, sites[1..])
  }

  /** Every type index a chain uses is in the table. */
  predicate Typed(t: Table, chain: Chain) {
    t.types.Some? ==> forall k :: 0 <= k < |chain| && chain[k] > 0 ==> chain[k] in t.types.value
  }

  datatype Layout = Layout(info: Option<nat>, typeEnc: byte, siteEnc: byte, sites: nat, actions: nat)

  /** The header fields in order: landing-pad base, offset of the type table, call-site format and
      length. */
  predicate HeaderAt(mem: Mem, lsda: nat, lpStart: Option<int>, l: Layout) {
    && lsda < |mem| && Readable(mem, lsda + 1, mem[lsda])
    && lpStart == (if mem[lsda] == OMIT then None else Some(EncodedValue(mem, lsda + 1, mem[lsda])))
    && var p2 := EncodedEnd(mem, lsda + 1, mem[lsda]);
       && p2 < |mem| && l.typeEnc == mem[p2] && (l.typeEnc != OMIT ==> Terminated(mem, p2 + 1))
       && var p3 := if l.typeEnc == OMIT then p2 + 1 else End(mem, p2 + 1);
          && l.info == (if l.typeEnc == OMIT then None else Some(p3 + Unsigned(mem[p2 + 1..p3]) % TWO64))
          && p3 < |mem| && l.siteEnc == mem[p3] && Terminated(mem, p3 + 1) && l.sites == End(mem, p3 + 1)
          && l.actions == l.sites + Unsigned(mem[p3 + 1..l.sites]) % TWO64
  }

  predicate TableAt(mem: Mem, names: Names, lsda: nat, t: Table, l: Layout) {
    && HeaderAt(mem, lsda, t.lpStart, l)
    && TypesAt(mem, names, l.info, l.typeEnc, t.types)
    && SitesAt(mem, l.sites, l.actions, l.siteEnc, t.sites)
    && forall k :: 0 <= k < |t.sites| ==> Typed(t, t.sites[k].chain)
  }

  // ---------------------------------------------------------------- the parser

  /** class_name_matches: up the superclass chain. */
  method ClassNameMatches(chain: seq<Option<string>>, wanted: string) returns (r: bool)
    ensures r == (Some(wanted) in chain)
  {
    var i := 0;
    while i < |chain|
      invariant i <= |chain| && Some(wanted) !in chain[..i]
    {
      if chain[i].Some? && chain[i].value == wanted {
        return true;
      }
      i := i + 1;
    }
    assert chain[..i] == chain;
    return false;
  }

  /** exception_matches_type: a null type name matches nothing, "@id" matches every resolved exception. */
  method MatchesType(exc: Thrown, names: Names, p: int) returns (r: bool)
    requires p == 0 || p in names
    ensures r == Catches(exc, if p == 0 then None else Some(names[p]))
  {
    if exc.None? || p == 0 {
      return false;
    }
    if names[p] == "@id" {
      return true;
    }
    r := ClassNameMatches(exc.value, names[p]);
  }

  lemma ReadableFormat(mem: Mem, p: nat, enc: byte)
    requires Readable(mem, p, enc)
    ensures Supported(enc) && (enc == OMIT ==> EncodedEnd(mem, p, enc) == p)
  {
  }

  /** The type of a positive index, looked up below the type table's end, against the exception. */
  method TryHandler(mem: Mem, names: Names, tti: int, info: nat, enc: byte, exc: Thrown,
                    ghost name: Option<string>) returns (caught: bool)
    requires TypeAt(mem, names, info, enc, tti, name)
    ensures caught == Catches(exc, name)
  {
    hide Readable, EncodedEnd, EncodedValue, Catches;
    var entry := info - tti * EncodingSize(enc);
    ReadableFormat(mem, entry, enc);
    var aborted, p, _ := ReadEncoded(mem, entry, enc);
    caught := MatchesType(exc, names, p);
  }

  lemma WalkStep(t: Table, chain: Chain, exc: Thrown, cleanup: bool)
    requires chain != [] && Typed(t, chain)
    ensures chain[0] > 0 && t.types.Some? ==> chain[0] in t.types.value
    ensures Walk(t, chain, exc, cleanup) ==
            if chain[0] > 0 && t.types.Some? && Catches(exc, t.types.value[chain[0]]) then (Some(chain[0]), cleanup)
            else Walk(t, chain[1..], exc, cleanup || chain[0] == 0)
  {
  }

  lemma {:induction false} ChainStep(mem: Mem, record: nat, chain: Chain, i: nat)
    requires i < |chain| && ChainAt(mem, record, chain[i..])
    ensures Terminated(mem, record) && Terminated(mem, End(mem, record))
    ensures var link := End(mem, record);
            var jump := ToSigned(Signed(mem[link..End(mem, link)]));
            && chain[i..][0] == chain[i] == ToSigned(Signed(mem[record..link])) && chain[i..][1..] == chain[i + 1..]
            && if jump == 0 then i + 1 == |chain|
              else i + 1 < |chain| && link + jump > 0 && ChainAt(mem, link + jump, chain[i + 1..])
  {
    hide Sum, Pow2, IsLeb, Terminated, ToSigned;
    assert chain[i..][1..] == chain[i + 1..];
  }

  /** The action-chain loop. */
  method WalkChain(mem: Mem, names: Names, first: nat, info: Option<nat>, enc: byte, exc: Thrown, ghost t: Table,
                   ghost chain: Chain)
      returns (selector: int, cleanup: bool, handler: bool)
    requires ChainAt(mem, first, chain) && Typed(t, chain) && TypesAt(mem, names, info, enc, t.types)
    ensures var (h, c) := Walk(t, chain, exc, false);
            cleanup == c && handler == h.Some? && selector == if h.Some? then ToInt32(h.value) else 0
  {
    hide Sum, Pow2, IsLeb, Terminated, ToSigned, ToInt32, Catches, ChainAt, Walk, TypeAt, Signed;
    selector, cleanup, handler := 0, false, false;
    var record: nat := first;
    ghost var i := 0;
    assert chain[0..] == chain;
    assert i < |chain| by { ChainNonempty(mem, first, chain); }
    while true
      invariant i < |chain| && ChainAt(mem, record, chain[i..]) && selector == 0 && !handler
      invariant Walk(t, chain[i..], exc, cleanup) == Walk(t, chain, exc, false)
      decreases |chain| - i
    {
      ChainStep(mem, record, chain, i);
      WalkStep(t, chain[i..], exc, cleanup);
      var tti, link := ReadSleb(mem, record);
      var jump, _ := ReadSleb(mem, link);
      if tti > 0 && info.Some? {
        var caught := TryHandler(mem, names, tti, info.value, enc, exc, t.types.value[tti]);
        if caught {
          selector, handler := ToInt32(tti), true;
          return;
        }
      } else if tti == 0 {
        cleanup := true;
      }
      if jump == 0 {
        WalkNone(t, chain[i..][1..], exc, cleanup);
        break;
      }
      record := link + jump;
      i := i + 1;
    }
  }

  lemma {:induction false} ChainNonempty(mem: Mem, record: nat, chain: Chain)
    requires ChainAt(mem, record, chain)
    ensures chain != []
  {
  }

  lemma {:induction false} WalkNone(t: Table, chain: Chain, exc: Thrown, cleanup: bool)
    requires chain == []
    ensures Walk(t, chain, exc, cleanup) == (None, cleanup)
  {
  }

  lemma {:induction false} SiteChain(mem: Mem, p: nat, end: nat, enc: byte, s: Site)
    requires SiteAt(mem, p, end, enc, s) && s.pad != 0 && s.action != 0
    ensures ChainAt(mem, end + s.action - 1, s.chain)
  {
  }

  /** The four fields of a call-site record. */
  method ReadSite(mem: Mem, p: nat, enc: byte, ghost end: nat, ghost s: Site) returns (start: int, len: int, pad: int,
                  action: nat, next: nat)
    requires SiteAt(mem, p, end, enc, s)
    ensures start == s.start && len == s.len && pad == s.pad && action == s.action
    ensures next == SiteEnd(mem, p, end, enc, s)
  {
    hide Sum, Pow2, Le, IsLeb, Terminated, Readable, EncodedEnd, EncodedValue, ChainAt;
    ReadableFormat(mem, p, enc);
    var aborted;
    aborted, start, next := ReadEncoded(mem, p, enc);
    aborted, len, next := ReadEncoded(mem, next, enc);
    aborted, pad, next := ReadEncoded(mem, next, enc);
    action, next := ReadUleb(mem, next);
  }

  /** The call-site loop: sites that do not cover the offset are passed over. */
  method SearchSites(mem: Mem, names: Names, funcStart: int, lpStart: int, offset: int, exc: Thrown, l: Layout,
                     ghost t: Table)
      returns (found: bool, out: Landing)
    requires SitesAt(mem, l.sites, l.actions, l.siteEnc, t.sites)
    requires lpStart == if t.lpStart.Some? then t.lpStart.value else funcStart
    requires TypesAt(mem, names, l.info, l.typeEnc, t.types)
    requires forall k :: 0 <= k < |t.sites| ==> Typed(t, t.sites[k].chain)
    ensures var answer := Search(t, t.sites, offset, funcStart, exc);
            found == answer.Some? && (found ==> out == answer.value)
  {
    hide SiteAt, TypeAt, Walk, Typed, ChainAt, ToInt32, SiteEnd;
    found, out := false, Landing(0, 0, false, false);
    var p := l.sites;
    ghost var i := 0;
    while p < l.actions
      invariant p <= l.actions && i <= |t.sites| && SitesAt(mem, p, l.actions, l.siteEnc, t.sites[i..])
      invariant Search(t, t.sites[i..], offset, funcStart, exc) == Search(t, t.sites, offset, funcStart, exc)
      decreases l.actions - p
    {
      ghost var rest := t.sites[i..];
      assert rest != [] && rest[0] == t.sites[i] && rest[1..] == t.sites[i + 1..];
      assert Typed(t, rest[0].chain);
      var start, len, pad, action, next := ReadSite(mem, p, l.siteEnc, l.actions, rest[0]);
      if offset < start || offset >= (start + len) % TWO64 {
        p := next;
        i := i + 1;
        continue;
      }
      if pad == 0 {
        return;
      }
      out := Landing((lpStart + pad) % TWO64, 0, false, false);
      if action == 0 {
        out := out.(cleanup := true);
        return true, out;
      }
      SiteChain(mem, p, l.actions, l.siteEnc, rest[0]);
      var selector, cleanup, handler := WalkChain(mem, names, l.actions + action - 1, l.info, l.typeEnc, exc, t,
        rest[0].chain);
      out := out.(selector := selector, cleanup := cleanup, handler := handler);
      return handler || cleanup, out;
    }
    assert t.sites[i..] == [];
  }

  /** The header, up to the call-site table. */
  method ReadHeader(mem: Mem, lsda: nat, funcStart: int, ghost base: Option<int>,
                    ghost l: Layout) returns (lpStart: int, layout: Layout)
    requires HeaderAt(mem, lsda, base, l)
    ensures layout == l && lpStart == if base.Some? then base.value else funcStart
  {
    hide Sum, Pow2, Le, IsLeb, Terminated, Supported, Readable, EncodedEnd, EncodedValue;
    ReadableFormat(mem, lsda + 1, mem[lsda]);
    lpStart := funcStart;
    var aborted, p: nat := false, lsda + 1;
    if mem[lsda] != OMIT {
      aborted, lpStart, p := ReadEncoded(mem, p, mem[lsda]);
    }
    var typeEnc := mem[p];
    p := p + 1;
    var info: Option<nat> := None;
    if typeEnc != OMIT {
      var far;
      far, p := ReadUleb(mem, p);
      info := Some(p + far);
    }
    var siteEnc := mem[p];
    var len, sites := ReadUleb(mem, p + 1);
    layout := Layout(info, typeEnc, siteEnc, sites, sites + len);
  }

  /** parse_lsda_for_ip_raw: the bytes of a laid-out table are searched as the abstract table is. */
  method Parse(mem: Mem, names: Names, lsda: nat, funcStart: int, ip: int, exc: Thrown, ghost t: Table, ghost l: Layout)
      returns (found: bool, out: Landing)
    requires 0 <= funcStart < TWO64 && 0 <= ip < TWO64
    requires lsda != 0 ==> TableAt(mem, names, lsda, t, l)
    ensures lsda == 0 ==> !found
    ensures lsda != 0 ==>
            found == Resolve(t, funcStart, ip, exc).Some? && (found ==> out == Resolve(t, funcStart, ip, exc).value)
  {
    hide SitesAt, TypesAt, Search, Typed, HeaderAt;
    if lsda == 0 {
      return false, Landing(0, 0, false, false);
    }
    var adjusted := if ip > funcStart then ip - 1 else ip;
    var offset := (adjusted - funcStart) % TWO64;
    var lpStart, layout := ReadHeader(mem, lsda, funcStart, t.lpStart, l);
    found, out := SearchSites(mem, names, funcStart, lpStart, offset, exc, layout, t);
  }

  // ---------------------------------------------------------------- a table byte by byte

  /** A number of one byte that is its own value, signed or not. */
  predicate IsSmall(mem: Mem, p: nat) {
    && p < |mem| && Terminated(mem, p) && End(mem, p) == p + 1
    && Unsigned(mem[p..p + 1]) == mem[p] && ToSigned(Signed(mem[p..p + 1])) == mem[p]
  }

  lemma {:induction false} OneByte(mem: Mem, p: nat)
    requires p < |mem| && mem[p] < 64
    ensures IsSmall(mem, p)
  {
    var b := mem[p..p + 1];
    assert b == [mem[p]] && b[..0] == [];
    assert Sum(b) == Sum(b[..0]) + b[0] % 128 * Pow2(0);
    EndIs(mem, p, p + 1);
  }

  /** One function with a call site of nine bytes whose pad, seven bytes in, catches "Foo"; the type table's one entry
      lies just before the end of the table. */
  const SAMPLE: seq<byte> := [
    0, 0xFF, 0, 16, 1, 4,
    0, 9, 7, 1,
    1, 0,
    32, 0, 0, 0, 0, 0, 0, 0]

  const SAMPLE_TABLE: Table := Table(None, Some(map[1 := Some("Foo")]), [Site(0, 9, 7, 1, [1])])

  const SAMPLE_LAYOUT: Layout := Layout(Some(20), 0, 1, 6, 10)

  lemma {:induction false} SampleNumbers()
    ensures IsSmall(SAMPLE, 3) && IsSmall(SAMPLE, 5) && IsSmall(SAMPLE, 6) && IsSmall(SAMPLE, 7) && IsSmall(SAMPLE, 8)
    ensures IsSmall(SAMPLE, 9) && IsSmall(SAMPLE, 10) && IsSmall(SAMPLE, 11)
  {
    hide IsSmall;
    OneByte(SAMPLE, 3); OneByte(SAMPLE, 5); OneByte(SAMPLE, 6); OneByte(SAMPLE, 7); OneByte(SAMPLE, 8);
    OneByte(SAMPLE, 9); OneByte(SAMPLE, 10); OneByte(SAMPLE, 11);
  }

  lemma {:induction false} SmallIsEncoded(mem: Mem, p: nat)
    requires IsSmall(mem, p)
    ensures Readable(mem, p, 1) && EncodedValue(mem, p, 1) == mem[p] && EncodedEnd(mem, p, 1) == p + 1
  {
    hide Unsigned, Signed, Terminated, End;
  }

  lemma {:induction false} SampleEntry()
    ensures Readable(SAMPLE, 12, 0) && EncodedValue(SAMPLE, 12, 0) == 32
  {
    hide Le, Pow2;
    BytesOfEight(SAMPLE, 12);
    BytesOfFour(SAMPLE, 12);
    BytesOfFour(SAMPLE, 16);
  }

  lemma {:induction false} SampleChain()
    ensures ChainAt(SAMPLE, 10, [1])
  {
    SampleNumbers();
    hide Unsigned, Signed, ToSigned, Terminated, End;
  }

  lemma {:induction false} SmallSite(mem: Mem, p: nat, end: nat, s: Site)
    requires IsSmall(mem, p) && IsSmall(mem, p + 1) && IsSmall(mem, p + 2) && IsSmall(mem, p + 3) && p + 4 <= end
    requires s.start == mem[p] && s.len == mem[p + 1] && s.pad == mem[p + 2] && s.action == mem[p + 3]
    requires s.action > 0 && ChainAt(mem, end + s.action - 1, s.chain)
    ensures SiteAt(mem, p, end, 1, s) && SiteEnd(mem, p, end, 1, s) == p + 4
  {
    hide Unsigned, Signed, ToSigned, Terminated, End, Readable, EncodedValue, EncodedEnd, ChainAt, IsSmall, IsLeb;
    SmallIsEncoded(mem, p);
    SmallIsEncoded(mem, p + 1);
    SmallIsEncoded(mem, p + 2);
    SmallIsNumber(mem, p + 3);
  }

  lemma {:induction false} SmallIsNumber(mem: Mem, p: nat)
    requires IsSmall(mem, p)
    ensures Terminated(mem, p) && End(mem, p) == p + 1 && Unsigned(mem[p..p + 1]) % TWO64 == mem[p]
  {
    hide Terminated, End, Unsigned, Signed;
  }

  lemma {:induction false} SampleSite()
    ensures SiteAt(SAMPLE, 6, 10, 1, SAMPLE_TABLE.sites[0]) && SiteEnd(SAMPLE, 6, 10, 1, SAMPLE_TABLE.sites[0]) == 10
  {
    hide IsSmall, SiteAt, SiteEnd, ChainAt;
    SampleNumbers();
    SampleChain();
    SmallSite(SAMPLE, 6, 10, SAMPLE_TABLE.sites[0]);
  }

  lemma {:induction false} SampleSites()
    ensures SitesAt(SAMPLE, 6, 10, 1, SAMPLE_TABLE.sites)
  {
    SampleSite();
    hide SiteAt, SiteEnd;
    assert SitesAt(SAMPLE, 10, 10, 1, SAMPLE_TABLE.sites[1..]);
  }

  lemma {:induction false} SampleIsTable()
    ensures TableAt(SAMPLE, map[32 := "Foo"], 1, SAMPLE_TABLE, SAMPLE_LAYOUT)
  {
    SampleNumbers();
    SampleEntry();
    SampleSites();
    SampleOmits();
    hide Unsigned, Signed, ToSigned, Terminated, End, Readable, EncodedValue, EncodedEnd, SitesAt;
  }

  lemma SampleOmits()
    ensures Readable(SAMPLE, 2, 0xFF) && EncodedEnd(SAMPLE, 2, 0xFF) == 2
  {
  }

  /** A function at 1000 lands at 1007 for type 1 when the call that returns to 1009 throws a subclass of "Foo", and
      nowhere for another class or from a later call. */
  lemma {:induction false} SampleLands()
    ensures Resolve(SAMPLE_TABLE, 1000, 1009, Some([Some("Bar"), Some("Foo")])) == Some(Landing(1007, 1, false, true))
    ensures Resolve(SAMPLE_TABLE, 1000, 1009, Some([Some("Bar")])) == None
    ensures Resolve(SAMPLE_TABLE, 1000, 1010, Some([Some("Foo")])) == None
  {
  }
}

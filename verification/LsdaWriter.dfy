/** Writing a table: the encoded-pointer writer, and a serialiser whose bytes the parser reads back as
    the table they were made from. */
module LsdaWriter {

  import opened Wrappers
  import opened Leb
  import opened Lsda

  /** The little-endian bytes of the low part of a word. */
  function LeBytes(v: nat, n: nat): (b: seq<byte>)
    ensures |b| == n
  {
    if n == 0 then [] else [v % 256] + LeBytes(v / 256, n - 1)
  }

  /** fuzz_write_encoded, for a supported format and room enough. */
  function Put(enc: byte, v: nat): seq<byte>
    requires Supported(enc) && enc != OMIT
  {
    if enc % 16 == 1 then UlebBytes(v) else if enc % 16 == 9 then SlebBytes(ToSigned(v))
      else LeBytes(v, EncodingSize(enc))
  }

  /** The words a format can carry: all of them for the widest formats, otherwise those the narrow
      unsigned or sign-extended number reaches. */
  predicate Carries(enc: byte, v: int) {
    && 0 <= v < TWO64
    && match enc % 16
       case 2 => v < 0x1_0000
       case 3 => v < 0x1_0000_0000
       case 10 => v < 0x8000 || v >= TWO64 - 0x8000
       case 11 => v < 0x8000_0000 || v >= TWO64 - 0x8000_0000
       case _ => true
  }

  /** No other word is ever read in the format, so these are all that it can carry. */
  lemma {:induction false} OnlyCarriedAreRead(mem: Mem, p: nat, enc: byte)
    requires PlainReadable(mem, p, enc)
    ensures Carries(enc, PlainValue(mem, p, enc))
  {
    hide Sum, Pow2, IsLeb, Terminated, Unsigned, Signed, Le;
    PowersAre();
  }

  lemma {:induction false} UlebAt(mem: Mem, p: nat, v: nat)
    requires At(mem, p, UlebBytes(v)) && v < TWO64
    ensures Terminated(mem, p) && End(mem, p) == p + |UlebBytes(v)| && Unsigned(mem[p..End(mem, p)]) % TWO64 == v
  {
    hide Sum, UlebBytes, IsLeb, Terminated;
    EndIs(mem, p, p + |UlebBytes(v)|);
    UlebMeans(v);
  }

  lemma {:induction false} SlebAt(mem: Mem, p: nat, v: int)
    requires At(mem, p, SlebBytes(v)) && -TWO63 <= v < TWO63
    ensures Terminated(mem, p) && End(mem, p) == p + |SlebBytes(v)|
    ensures Signed(mem[p..End(mem, p)]) == v && ToSigned(Signed(mem[p..End(mem, p)])) == v
  {
    hide Sum, SlebBytes, IsLeb, Terminated;
    EndIs(mem, p, p + |SlebBytes(v)|);
    SlebMeans(v);
  }

  lemma {:induction false} LeAt(mem: Mem, p: nat, v: nat, n: nat)
    requires At(mem, p, LeBytes(v, n))
    ensures Le(mem, p, n) == v % Pow2(8 * n)
    decreases n
  {
    if n > 0 {
      hide Pow2;
      AtSplit(mem, p, [v % 256], LeBytes(v / 256, n - 1));
      assert mem[p] == mem[p..p + 1][0] == v % 256;
      LeAt(mem, p + 1, v / 256, n - 1);
      var m := Pow2(8 * (n - 1));
      BytePow(n);
      ModByte(v, m);
    } else {
      assert Pow2(0) == 1;
    }
  }

  lemma {:induction false} BytePow(n: nat)
    requires n > 0
    ensures Pow2(8 * n) == 256 * Pow2(8 * (n - 1))
  {
    PowSum(8, 8 * (n - 1));
    assert Pow2(8) == 256;
  }

  lemma ModByte(v: nat, m: nat)
    requires m > 0
    ensures v % (256 * m) == v % 256 + 256 * (v / 256 % m)
  {
    var q, r, k := v / 256, v % 256, v / 256 / m;
    var low := r + 256 * (q % m);
    assert v == 256 * q + r && q == k * m + q % m;
    assert 256 * (k * m + q % m) == k * (256 * m) + 256 * (q % m);
    assert v == k * (256 * m) + low;
    assert 0 <= low < 256 * m;
    Remainder(v, k, 256 * m, low);
  }

  lemma Remainder(v: nat, k: int, d: nat, r: nat)
    requires d > 0 && v == k * d + r && r < d
    ensures v % d == r
  {
    var q := v / d;
    assert v == q * d + v % d;
    if q < k { MulOrder(q + 1, k, d); }
    if q > k { MulOrder(k + 1, q, d); }
  }

  /** Where a written word points: at itself, or relative to the place it was written to. */
  function Aim(p: nat, enc: byte, v: int): int {
    if PcRelative(enc) then (v + p) % TWO64 else v
  }

  /** An indirect format needs a word where it points. */
  predicate Reaches(mem: Mem, p: nat, enc: byte, v: int) {
    Indirect(enc) ==> 0 <= Aim(p, enc, v) && Aim(p, enc, v) + 8 <= |mem|
  }

  /** What a written word stands for at its place. */
  function Seen(mem: Mem, p: nat, enc: byte, v: int): int
    requires Reaches(mem, p, enc, v)
  {
    if Indirect(enc) then Le(mem, Aim(p, enc, v), 8) else Aim(p, enc, v)
  }

  /** read_encoded inverts the writer for every format and every word it carries. */
  lemma {:induction false} PutReads(mem: Mem, p: nat, enc: byte, v: int)
    requires Supported(enc) && enc != OMIT && Carries(enc, v) && At(mem, p, Put(enc, v)) && Reaches(mem, p, enc, v)
    ensures Readable(mem, p, enc) && EncodedEnd(mem, p, enc) == p + |Put(enc, v)|
    ensures EncodedValue(mem, p, enc) == Seen(mem, p, enc, v)
  {
    hide Sum, Pow2, Le, LeBytes, At, IsLeb, UlebBytes, SlebBytes, Terminated;
    PlainReads(mem, p, enc, v);
  }

  /** The format alone. */
  lemma {:induction false} PlainReads(mem: Mem, p: nat, enc: byte, v: int)
    requires Supported(enc) && enc != OMIT && Carries(enc, v) && At(mem, p, Put(enc, v))
    ensures PlainReadable(mem, p, enc) && PlainValue(mem, p, enc) == v
    ensures p + |Put(enc, v)| == if IsLebFormat(enc) then End(mem, p) else p + EncodingSize(enc)
  {
    hide Sum, Pow2, Le, LeBytes, At, IsLeb, UlebBytes, SlebBytes, Terminated;
    PowersAre();
    if enc % 16 == 1 {
      UlebAt(mem, p, v);
    } else if enc % 16 == 9 {
      SlebAt(mem, p, ToSigned(v));
    } else {
      LeAt(mem, p, v, EncodingSize(enc));
      AtFits(mem, p, LeBytes(v, EncodingSize(enc)));
      NarrowMod(v, EncodingSize(enc), enc);
    }
  }

  lemma AtFits(mem: Mem, p: nat, b: seq<byte>)
    requires At(mem, p, b)
    ensures p + |b| <= |mem|
  {
  }

  lemma {:induction false} NarrowMod(v: int, size: nat, enc: byte)
    requires Supported(enc) && enc != OMIT && !IsLebFormat(enc) && Carries(enc, v) && size == EncodingSize(enc)
    ensures (if enc % 16 >= 10 then Widened(v % Pow2(8 * size), size) else v % Pow2(8 * size)) == v
  {
    hide Pow2;
    PowersAre();
  }

  // ---------------------------------------------------------------- the serialiser

  /** A chain as consecutive records: each link but the last jumps over itself. */
  function ChainBytes(chain: Chain): seq<byte>
    requires chain != []
  {
    SlebBytes(chain[0]) + if |chain| == 1 then SlebBytes(0) else SlebBytes(1) + ChainBytes(chain[1..])
  }

  lemma {:induction false} ChainWritten(mem: Mem, p: nat, chain: Chain)
    requires chain != [] && p > 0 && At(mem, p, ChainBytes(chain))
    requires forall k :: 0 <= k < |chain| ==> -TWO63 <= chain[k] < TWO63
    ensures ChainAt(mem, p, chain)
    decreases |chain|
  {
    hide Sum, At, IsLeb, SlebBytes, Terminated, ToSigned, Signed;
    var first := SlebBytes(chain[0]);
    var q := p + |first|;
    var rest := if |chain| == 1 then SlebBytes(0) else SlebBytes(1) + ChainBytes(chain[1..]);
    AtSplit(mem, p, first, rest);
    SlebAt(mem, p, chain[0]);
    if |chain| == 1 {
      SlebAt(mem, q, 0);
    } else {
      AtSplit(mem, q, SlebBytes(1), ChainBytes(chain[1..]));
      SlebAt(mem, q, 1);
      OneByte();
      ChainWritten(mem, q + 1, chain[1..]);
    }
  }

  lemma OneByte()
    ensures SlebBytes(1) == [1]
  {
  }

  function SiteBytes(enc: byte, s: Site): seq<byte>
    requires Supported(enc) && enc != OMIT && Fits(enc, s)
  {
    Put(enc, s.start) + (Put(enc, s.len) + (Put(enc, s.pad) + UlebBytes(s.action)))
  }

  predicate Fits(enc: byte, s: Site) {
    Carries(enc, s.start) && Carries(enc, s.len) && Carries(enc, s.pad) && s.action < TWO64
  }

  function SitesBytes(enc: byte, sites: seq<Site>): seq<byte>
    requires Supported(enc) && enc != OMIT && forall k :: 0 <= k < |sites| ==> Fits(enc, sites[k])
  {
    if sites == [] then [] else SiteBytes(enc, sites[0]) + SitesBytes(enc, sites[1..])
  }

  /** Every indirect field of a site written at `p` has a word to point at. */
  predicate SiteReaches(mem: Mem, p: nat, enc: byte, s: Site)
    requires Supported(enc) && enc != OMIT && Fits(enc, s)
  {
    var p1 := p + |Put(enc, s.start)|;
    var p2 := p1 + |Put(enc, s.len)|;
    Reaches(mem, p, enc, s.start) && Reaches(mem, p1, enc, s.len) && Reaches(mem, p2, enc, s.pad)
  }

  /** What the words of a site stand for at their places. */
  function SeenSite(mem: Mem, p: nat, enc: byte, s: Site): Site
    requires Supported(enc) && enc != OMIT && Fits(enc, s) && SiteReaches(mem, p, enc, s)
  {
    var p1 := p + |Put(enc, s.start)|;
    var p2 := p1 + |Put(enc, s.len)|;
    Site(Seen(mem, p, enc, s.start), Seen(mem, p1, enc, s.len), Seen(mem, p2, enc, s.pad), s.action, s.chain)
  }

  predicate SitesReach(mem: Mem, p: nat, enc: byte, sites: seq<Site>)
    requires Supported(enc) && enc != OMIT && forall k :: 0 <= k < |sites| ==> Fits(enc, sites[k])
    decreases |sites|
  {
    sites == [] ||
    (SiteReaches(mem, p, enc, sites[0]) && SitesReach(mem, p + |SiteBytes(enc, sites[0])|, enc, sites[1..]))
  }

  function SeenSites(mem: Mem, p: nat, enc: byte, sites: seq<Site>): (r: seq<Site>)
    requires Supported(enc) && enc != OMIT
    requires (forall k :: 0 <= k < |sites| ==> Fits(enc, sites[k])) && SitesReach(mem, p, enc, sites)
    ensures |r| == |sites| && forall k :: 0 <= k < |sites| ==>
            r[k].chain == sites[k].chain && r[k].action == sites[k].action
    decreases |sites|
  {
    if sites == [] then []
    else [SeenSite(mem, p, enc, sites[0])] + SeenSites(mem, p + |SiteBytes(enc, sites[0])|, enc, sites[1..])
  }

  lemma {:induction false} SiteWritten(mem: Mem, p: nat, end: nat, enc: byte, s: Site)
    requires Supported(enc) && enc != OMIT && Fits(enc, s) && SiteReaches(mem, p, enc, s)
    requires At(mem, p, SiteBytes(enc, s)) && p + |SiteBytes(enc, s)| <= end
    requires s.action != 0 ==> ChainAt(mem, end + s.action - 1, s.chain)
    ensures SiteAt(mem, p, end, enc, SeenSite(mem, p, enc, s))
    ensures SiteEnd(mem, p, end, enc, SeenSite(mem, p, enc, s)) == p + |SiteBytes(enc, s)|
  {
    hide Sum, At, IsLeb, Put, UlebBytes, Readable, EncodedEnd, EncodedValue, ChainAt, Terminated, Seen, Reaches;
    var a, b, c, d := Put(enc, s.start), Put(enc, s.len), Put(enc, s.pad), UlebBytes(s.action);
    AtSplit(mem, p, a, b + (c + d));
    AtSplit(mem, p + |a|, b, c + d);
    AtSplit(mem, p + |a| + |b|, c, d);
    PutReads(mem, p, enc, s.start);
    PutReads(mem, p + |a|, enc, s.len);
    PutReads(mem, p + |a| + |b|, enc, s.pad);
    UlebAt(mem, p + |a| + |b| + |c|, s.action);
  }

  lemma {:induction false} SitesWritten(mem: Mem, p: nat, end: nat, enc: byte, sites: seq<Site>)
    requires Supported(enc) && enc != OMIT
    requires (forall k :: 0 <= k < |sites| ==> Fits(enc, sites[k])) && SitesReach(mem, p, enc, sites)
    requires At(mem, p, SitesBytes(enc, sites)) && end == p + |SitesBytes(enc, sites)|
    requires forall k :: 0 <= k < |sites| && sites[k].action != 0 ==>
               ChainAt(mem, end + sites[k].action - 1, sites[k].chain)
    ensures SitesAt(mem, p, end, enc, SeenSites(mem, p, enc, sites))
    decreases |sites|
  {
    hide At, SiteBytes, SiteAt, SiteEnd, ChainAt, Fits, SiteReaches, SeenSite;
    if sites != [] {
      AtSplit(mem, p, SiteBytes(enc, sites[0]), SitesBytes(enc, sites[1..]));
      SiteWritten(mem, p, end, enc, sites[0]);
      var next := p + |SiteBytes(enc, sites[0])|;
      SitesWritten(mem, next, end, enc, sites[1..]);
      assert SeenSites(mem, p, enc, sites)[1..] == SeenSites(mem, next, enc, sites[1..]);
    }
  }

  /** The type table grows downwards: the entry of index 1 comes last. */
  function TypeBytes(enc: byte, types: seq<nat>): (b: seq<byte>)
    requires Supported(enc) && enc != OMIT && !IsLebFormat(enc)
    ensures |b| == |types| * EncodingSize(enc)
  {
    if types == [] then [] else TypeBytes(enc, types[1..]) + Put(enc, types[0])
  }

  lemma InTable(i: nat, n: nat, size: nat)
    requires i <= n
    ensures i * size <= n * size
  {
    MulOrder(i, n, size);
  }

  lemma OneMore(i: int, size: int)
    ensures i * size == (i - 1) * size + size
  {
  }

  /** Entry `i` counts from the end of the table. */
  lemma {:induction false} TypeWritten(mem: Mem, p: nat, enc: byte, types: seq<nat>, i: nat, entry: nat)
    requires Supported(enc) && enc != OMIT && !IsLebFormat(enc) && 0 < i <= |types|
    requires forall k :: 0 <= k < |types| ==> Carries(enc, types[k])
    requires At(mem, p, TypeBytes(enc, types)) && entry + i * EncodingSize(enc) == p + |TypeBytes(enc, types)|
    requires Reaches(mem, entry, enc, types[i - 1])
    ensures Readable(mem, entry, enc) && EncodedValue(mem, entry, enc) == Seen(mem, entry, enc, types[i - 1])
    decreases |types|
  {
    var size, rest := EncodingSize(enc), TypeBytes(enc, types[1..]);
    assert TypeBytes(enc, types) == rest + Put(enc, types[0]) && |Put(enc, types[0])| == size;
    hide At, Readable, EncodedValue, Carries, EncodingSize, Put, IsLebFormat, Supported, TypeBytes, Reaches, Seen;
    AtSplit(mem, p, rest, Put(enc, types[0]));
    OneMore(i, size);
    if i == 1 {
      PutReads(mem, entry, enc, types[0]);
    } else {
      TypeWritten(mem, p, enc, types[1..], i - 1, entry);
    }
  }

  /** A table to be written: how each part is encoded, the words of the base, of the types and of the call
      sites, and the bytes of the action table. */
  datatype Plan = Plan(lpEnc: byte, lpStart: nat, typeEnc: byte, types: seq<nat>, siteEnc: byte, sites: seq<Site>,
    actions: seq<byte>)

  /** Every word fits its format, and each action points at its chain in the action table, shared
      with other sites or not. */
  predicate Writable(plan: Plan) {
    && (plan.lpEnc == OMIT || (Supported(plan.lpEnc) && Carries(plan.lpEnc, plan.lpStart)))
    && (plan.typeEnc == OMIT || (Supported(plan.typeEnc) && !IsLebFormat(plan.typeEnc)))
    && (forall k :: 0 <= k < |plan.types| ==> Carries(plan.typeEnc, plan.types[k]))
    && Supported(plan.siteEnc) && plan.siteEnc != OMIT
    && (forall k :: 0 <= k < |plan.sites| ==> Fits(plan.siteEnc, plan.sites[k]))
    && forall k :: 0 <= k < |plan.sites| ==> Linked(plan, plan.sites[k])
  }

  predicate Linked(plan: Plan, s: Site) {
    && (forall k :: 0 <= k < |s.chain| ==>
      -TWO63 <= s.chain[k] < TWO63 && (plan.typeEnc != OMIT ==> s.chain[k] <= |plan.types|))
    && (s.action != 0 ==>
          && s.chain != [] && s.action - 1 + |ChainBytes(s.chain)| <= |plan.actions|
          && plan.actions[s.action - 1..s.action - 1 + |ChainBytes(s.chain)|] == ChainBytes(s.chain))
  }

  function SitesOf(plan: Plan): seq<byte>
    requires Writable(plan)
  {
    SitesBytes(plan.siteEnc, plan.sites)
  }

  function TypesOf(plan: Plan): seq<byte>
    requires Writable(plan)
  {
    if plan.typeEnc == OMIT then [] else TypeBytes(plan.typeEnc, plan.types)
  }

  function TablesBytes(plan: Plan): seq<byte>
    requires Writable(plan)
  {
    SitesOf(plan) + (plan.actions + TypesOf(plan))
  }

  /** From the call-site format on. */
  function TailBytes(plan: Plan): seq<byte>
    requires Writable(plan)
  {
    [plan.siteEnc] + (UlebBytes(|SitesOf(plan)|) + TablesBytes(plan))
  }

  function BaseBytes(plan: Plan): seq<byte>
    requires Writable(plan)
  {
    if plan.lpEnc == OMIT then [] else Put(plan.lpEnc, plan.lpStart)
  }

  /** How far the end of the type table is. */
  function FarBytes(plan: Plan): seq<byte>
    requires Writable(plan)
  {
    if plan.typeEnc == OMIT then [] else UlebBytes(|TailBytes(plan)|)
  }

  function Serialize(plan: Plan): seq<byte>
    requires Writable(plan)
  {
    [plan.lpEnc] + (BaseBytes(plan) + ([plan.typeEnc] + (FarBytes(plan) + TailBytes(plan))))
  }

  /** The place of the type entry of an index. */
  function EntryOf(plan: Plan, lsda: nat, i: int): int
    requires Writable(plan) && plan.typeEnc != OMIT
  {
    LayoutOf(plan, lsda).actions + |plan.actions| + (|plan.types| - i) * EncodingSize(plan.typeEnc)
  }

  predicate TypeResolves(mem: Mem, names: Names, lsda: nat, plan: Plan, i: int)
    requires Writable(plan) && plan.typeEnc != OMIT && 1 <= i <= |plan.types|
  {
    var entry := EntryOf(plan, lsda, i);
    && entry >= 0 && Reaches(mem, entry, plan.typeEnc, plan.types[i - 1])
    && var v := Seen(mem, entry, plan.typeEnc, plan.types[i - 1]); v == 0 || v in names
  }

  /** Written at `lsda`, indirect words find what they point at, and types their names. */
  predicate Resolves(mem: Mem, names: Names, lsda: nat, plan: Plan)
    requires Writable(plan)
  {
    && (plan.lpEnc != OMIT ==> Reaches(mem, lsda + 1, plan.lpEnc, plan.lpStart))
    && SitesReach(mem, LayoutOf(plan, lsda).sites, plan.siteEnc, plan.sites)
    && (plan.typeEnc != OMIT ==> forall i :: 1 <= i <= |plan.types| ==> TypeResolves(mem, names, lsda, plan, i))
  }

  function NameOf(mem: Mem, names: Names, lsda: nat, plan: Plan, i: int): Option<string>
    requires Writable(plan) && plan.typeEnc != OMIT && 1 <= i <= |plan.types| && TypeResolves(mem, names, lsda, plan, i)
  {
    var v := Seen(mem, EntryOf(plan, lsda, i), plan.typeEnc, plan.types[i - 1]);
    if v == 0 then None else Some(names[v])
  }

  /** The table a plan stands for when it is written at `lsda`. */
  function Meaning(mem: Mem, names: Names, lsda: nat, plan: Plan): Table
    requires Writable(plan) && Resolves(mem, names, lsda, plan)
  {
    Table(if plan.lpEnc == OMIT then None else Some(Seen(mem, lsda + 1, plan.lpEnc, plan.lpStart)),
          if plan.typeEnc == OMIT then None
          else Some(map i: int | 1 <= i <= |plan.types| :: NameOf(mem, names, lsda, plan, i)),
          SeenSites(mem, LayoutOf(plan, lsda).sites, plan.siteEnc, plan.sites))
  }

  function LayoutOf(plan: Plan, lsda: nat): Layout
    requires Writable(plan)
  {
    var p3 := lsda + 1 + |BaseBytes(plan)| + 1 + |FarBytes(plan)|;
    var p4 := p3 + 1 + |UlebBytes(|SitesOf(plan)|)|;
    Layout(if plan.typeEnc == OMIT then None
      else Some(p3 + |TailBytes(plan)|), plan.typeEnc, plan.siteEnc, p4, p4 + |SitesOf(plan)|)
  }

  lemma AtByte(mem: Mem, p: nat, b: byte)
    requires At(mem, p, [b])
    ensures p < |mem| && mem[p] == b
  {
    assert mem[p..p + 1][0] == mem[p];
  }

  /** The header of the serialised bytes. */
  lemma HeaderWritten(mem: Mem, lsda: nat, plan: Plan)
    requires Writable(plan) && At(mem, lsda, Serialize(plan))
    requires plan.lpEnc != OMIT ==> Reaches(mem, lsda + 1, plan.lpEnc, plan.lpStart)
    ensures HeaderAt(mem, lsda, if plan.lpEnc == OMIT then None
            else Some(Seen(mem, lsda + 1, plan.lpEnc, plan.lpStart)), LayoutOf(plan, lsda))
    ensures At(mem, LayoutOf(plan, lsda).sites, TablesBytes(plan))
  {
    hide At, Writable, UlebBytes, BaseBytes, FarBytes, TailBytes, TablesBytes, SitesOf, Readable, EncodedEnd;
    hide EncodedValue;
    hide Sum, IsLeb, Terminated, Seen, Reaches;
    var base, far := BaseBytes(plan), FarBytes(plan);
    HeaderParts(mem, lsda, plan);
    BaseWritten(mem, lsda + 1, plan);
    FarWritten(mem, lsda + 1 + |base| + 1, plan);
    TailWritten(mem, lsda + 1 + |base| + 1 + |far|, plan);
  }

  /** The five parts of the serialised bytes at their places. */
  lemma {:induction false} HeaderParts(mem: Mem, lsda: nat, plan: Plan)
    requires Writable(plan) && At(mem, lsda, Serialize(plan))
    ensures var base, far := BaseBytes(plan), FarBytes(plan);
            var p2 := lsda + 1 + |base|;
            && lsda < p2 < |mem| && mem[lsda] == plan.lpEnc && At(mem, lsda + 1, base) && mem[p2] == plan.typeEnc
            && At(mem, p2 + 1, far) && At(mem, p2 + 1 + |far|, TailBytes(plan))
  {
    hide At, Writable, BaseBytes, FarBytes, TailBytes;
    var base, far, tail := BaseBytes(plan), FarBytes(plan), TailBytes(plan);
    var p2 := lsda + 1 + |base|;
    AtSplit(mem, lsda, [plan.lpEnc], base + ([plan.typeEnc] + (far + tail)));
    AtByte(mem, lsda, plan.lpEnc);
    AtSplit(mem, lsda + 1, base, [plan.typeEnc] + (far + tail));
    AtSplit(mem, p2, [plan.typeEnc], far + tail);
    AtByte(mem, p2, plan.typeEnc);
    AtSplit(mem, p2 + 1, far, tail);
  }

  lemma BaseWritten(mem: Mem, p: nat, plan: Plan)
    requires Writable(plan) && At(mem, p, BaseBytes(plan))
    requires plan.lpEnc != OMIT ==> Reaches(mem, p, plan.lpEnc, plan.lpStart)
    ensures Readable(mem, p, plan.lpEnc) && EncodedEnd(mem, p, plan.lpEnc) == p + |BaseBytes(plan)|
    ensures plan.lpEnc != OMIT ==> EncodedValue(mem, p, plan.lpEnc) == Seen(mem, p, plan.lpEnc, plan.lpStart)
  {
    hide At, Put, Linked, Seen, Reaches;
    if plan.lpEnc != OMIT { PutReads(mem, p, plan.lpEnc, plan.lpStart); }
  }

  lemma {:induction false} FarWritten(mem: Mem, p: nat, plan: Plan)
    requires Writable(plan) && At(mem, p, FarBytes(plan))
    requires p > 0 && At(mem, p + |FarBytes(plan)|, TailBytes(plan))
    ensures plan.typeEnc == OMIT ==> FarBytes(plan) == []
    ensures plan.typeEnc != OMIT ==> Terminated(mem, p) && End(mem, p) == p + |FarBytes(plan)|
                                     && Unsigned(mem[p..End(mem, p)]) % TWO64 == |TailBytes(plan)|
  {
    hide At, Writable, UlebBytes, TailBytes, Sum, IsLeb, Terminated;
    AtFits(mem, p + |FarBytes(plan)|, TailBytes(plan));
    if plan.typeEnc != OMIT {
      UlebAt(mem, p, |TailBytes(plan)|);
    }
  }

  lemma {:induction false} TailWritten(mem: Mem, p: nat, plan: Plan)
    requires Writable(plan) && At(mem, p, TailBytes(plan))
    ensures var n := |SitesOf(plan)|;
            && p < |mem| && mem[p] == plan.siteEnc && Terminated(mem, p + 1)
            && End(mem, p + 1) == p + 1 + |UlebBytes(n)| && Unsigned(mem[p + 1..End(mem, p + 1)]) % TWO64 == n
            && At(mem, p + 1 + |UlebBytes(n)|, TablesBytes(plan))
  {
    hide At, Writable, UlebBytes, SitesOf, TypesOf, Sum, IsLeb, Terminated;
    var n := |SitesOf(plan)|;
    AtSplit(mem, p, [plan.siteEnc], UlebBytes(n) + TablesBytes(plan));
    AtByte(mem, p, plan.siteEnc);
    AtSplit(mem, p + 1, UlebBytes(n), TablesBytes(plan));
    AtFits(mem, p + 1 + |UlebBytes(n)|, TablesBytes(plan));
    UlebAt(mem, p + 1, n);
  }

  /** Part of a written region. */
  lemma AtSlice(mem: Mem, p: nat, b: seq<byte>, i: nat, j: nat)
    requires At(mem, p, b) && i <= j <= |b|
    ensures At(mem, p + i, b[i..j])
  {
    var w := mem[p..p + |b|];
    forall k | 0 <= k < j - i ensures mem[p + i..p + j][k] == w[i..j][k] {
      assert w[i..j][k] == w[i + k];
    }
    assert mem[p + i..p + j] == w[i..j];
  }

  /** Wherever the serialised bytes lie, they are a table that means what the plan means there;
      `Lsda.Parse` then answers as the abstract search over that meaning does. */
  lemma {:induction false} SerializeIsTable(mem: Mem, names: Names, lsda: nat, plan: Plan)
    requires Writable(plan) && Resolves(mem, names, lsda, plan) && At(mem, lsda, Serialize(plan))
    ensures TableAt(mem, names, lsda, Meaning(mem, names, lsda, plan), LayoutOf(plan, lsda))
  {
    hide At, Put, TailBytes, Serialize, ChainBytes, SiteBytes, SitesBytes, TypeBytes, BaseBytes, FarBytes, HeaderAt;
    hide ChainAt;
    hide SitesAt, UlebBytes, Readable, EncodedValue, Seen, Reaches, SitesReach, TypeResolves;
    HeaderWritten(mem, lsda, plan);
    var l := LayoutOf(plan, lsda);
    var t := Meaning(mem, names, lsda, plan);
    var sites, types := SitesOf(plan), TypesOf(plan);
    AtSplit(mem, l.sites, sites, plan.actions + types);
    AtSplit(mem, l.actions, plan.actions, types);
    forall k | 0 <= k < |plan.sites| && plan.sites[k].action != 0
      ensures ChainAt(mem, l.actions + plan.sites[k].action - 1, plan.sites[k].chain)
    {
      var s := plan.sites[k];
      assert Linked(plan, s);
      AtSlice(mem, l.actions, plan.actions, s.action - 1, s.action - 1 + |ChainBytes(s.chain)|);
      ChainWritten(mem, l.actions + s.action - 1, s.chain);
    }
    SitesWritten(mem, l.sites, l.actions, plan.siteEnc, plan.sites);
    if plan.typeEnc != OMIT {
      InfoIs(plan, lsda);
      forall i | i in t.types.value ensures TypeAt(mem, names, l.info.value, l.typeEnc, i, t.types.value[i]) {
        assert t.types.value[i] == NameOf(mem, names, lsda, plan, i);
        EntryWritten(mem, names, lsda, plan, i);
      }
    }
    forall k | 0 <= k < |t.sites| ensures Typed(t, t.sites[k].chain) {
      assert Linked(plan, plan.sites[k]);
    }
  }

  lemma {:induction false} EntryWritten(mem: Mem, names: Names, lsda: nat, plan: Plan, i: int)
    requires Writable(plan) && plan.typeEnc != OMIT && 1 <= i <= |plan.types| && TypeResolves(mem, names, lsda, plan, i)
    requires At(mem, LayoutOf(plan, lsda).actions + |plan.actions|, TypesOf(plan)) && LayoutOf(plan, lsda).info.Some?
    ensures TypeAt(mem, names, LayoutOf(plan, lsda).info.value, plan.typeEnc, i, NameOf(mem, names, lsda, plan, i))
  {
    hide At, Put, TailBytes, TypeBytes, LayoutOf, Readable, EncodedValue, Seen, Reaches;
    var l, size := LayoutOf(plan, lsda), EncodingSize(plan.typeEnc);
    InfoIs(plan, lsda);
    InTable(i, |plan.types|, size);
    Distribute(|plan.types| - i, 1, i, size);
    TypeWritten(mem, l.actions + |plan.actions|, plan.typeEnc, plan.types, i, EntryOf(plan, lsda, i));
  }

  lemma InfoIs(plan: Plan, lsda: nat)
    requires Writable(plan) && plan.typeEnc != OMIT
    ensures var l := LayoutOf(plan, lsda);
            l.info == Some(l.actions + |plan.actions| + |TypeBytes(plan.typeEnc, plan.types)|)
  {
    hide UlebBytes, SitesOf, TypeBytes, Put, BaseBytes, FarBytes;
  }
}

/** The small-block allocator: slabs are carved into blocks, blocks that are not handed out hang in free
    lists threaded through their own first word. Addresses count 8-byte words, so an even one is 16-byte
    aligned; address 0 is the null pointer. */
module Allocator {

  import opened Wrappers

  type Addr = nat

  const GRANULE: nat := 16
  const MAX_FAST: nat := 512
  const BINS: nat := 32
  const REFILL_BLOCKS: nat := 64
  const WORD: nat := 8

  /** fast_bin_index: the sizes served from bins. */
  function BinOf(size: nat): (b: Option<nat>)
    ensures b.Some? <==> 0 < size <= MAX_FAST
    ensures b.Some? ==> b.value < BINS && size <= BinBytes(b.value) < size + GRANULE
  {
    if size == 0 || size > MAX_FAST then None else Some((size - 1) / GRANULE)
  }

  /** Bin b has the sizes from 16 b + 1 to 16 b + 16. */
  lemma {:induction false} BinServes(size: nat, bin: nat)
    ensures BinOf(size) == Some(bin) <==> bin < 32 && 16 * bin < size <= 16 * bin + 16
    ensures BinOf(size) == None <==> size == 0 || size > 512
  {
  }

  /** fast_bin_size, in bytes and in words. */
  function BinBytes(bin: nat): nat {
    (bin + 1) * GRANULE
  }

  function BinWords(bin: nat): (w: nat)
    ensures w >= 2 && w % 2 == 0 && w * WORD == BinBytes(bin)
  {
    2 * (bin + 1)
  }

  // ---------------------------------------------------------------- free lists in memory

  type Memory = map<Addr, nat>

  /** Following the first words from `head` visits `list` and ends. */
  predicate Chain(mem: Memory, head: Addr, list: seq<Addr>)
    decreases |list|
  {
    if list == [] then head == 0
    else head == list[0] != 0 && head in mem && Chain(mem, mem[head], list[1..])
  }

  lemma {:induction false} ChainSame(mem: Memory, mem1: Memory, head: Addr, list: seq<Addr>)
    requires Chain(mem, head, list) && forall i :: 0 <= i < |list| ==>
             list[i] in mem1 && (list[i] in mem ==> mem1[list[i]] == mem[list[i]])
    ensures Chain(mem1, head, list)
    decreases |list|
  {
    if list != [] {
      assert list[0] in mem1;
      assert forall i :: 0 <= i < |list[1..]| ==> list[1..][i] == list[i + 1];
      ChainSame(mem, mem1, mem[head], list[1..]);
    }
  }

  /** Every word of a block exists. */
  predicate Mapped(mem: Memory, a: Addr, bin: nat) {
    forall w :: a <= w < a + BinWords(bin) ==> w in mem
  }

  /** Every word of a block from `from` on is zero. */
  predicate ZeroFrom(mem: Memory, a: Addr, from: nat, bin: nat) {
    forall w :: a + from <= w < a + BinWords(bin) ==> w in mem && mem[w] == 0
  }

  /** The contents of a block did not change. */
  predicate SameWords(mem: Memory, mem1: Memory, a: Addr, bin: nat) {
    forall w :: a <= w < a + BinWords(bin) && w in mem ==> w in mem1 && mem1[w] == mem[w]
  }

  predicate ApartBlocks(a: Addr, abin: nat, b: Addr, bbin: nat) {
    a + BinWords(abin) <= b || b + BinWords(bbin) <= a
  }

  /** The bookkeeping: every block ever carved with its bin, the free ones of each bin, and the ones handed
      out. */
  datatype Heap = Heap(mem: Memory, heads: seq<Addr>, lists: seq<seq<Addr>>, blocks: map<Addr, nat>, handed: set<Addr>)

  predicate Shaped(h: Heap) {
    |h.heads| == BINS && |h.lists| == BINS
  }

  predicate GoodBlock(h: Heap, a: Addr)
    requires a in h.blocks
  {
    h.blocks[a] < BINS && a > 0 && a % 2 == 0 && Mapped(h.mem, a, h.blocks[a])
  }

  /** Blocks are 16-byte aligned, exist, and do not overlap. */
  predicate Carved(h: Heap) {
    && (forall a :: a in h.blocks ==> GoodBlock(h, a))
    && forall a, b :: a in h.blocks && b in h.blocks && a != b ==> ApartBlocks(a, h.blocks[a], b, h.blocks[b])
  }

  /** A bin's list is threaded through its free blocks. */
  predicate GoodBin(h: Heap, bin: nat)
    requires Shaped(h) && bin < BINS
  {
    && Chain(h.mem, h.heads[bin], h.lists[bin]) && NoRepeats(h.lists[bin])
    && forall i :: 0 <= i < |h.lists[bin]| ==> FreeIn(h, h.lists[bin][i], bin)
  }

  predicate FreeIn(h: Heap, a: Addr, bin: nat) {
    a in h.blocks && h.blocks[a] == bin && a !in h.handed
  }

  /** Every block is in the list of its bin or handed out, not both; a free one is zero past its link. */
  predicate Partitioned(h: Heap)
    requires Shaped(h)
  {
    && (forall a :: a in h.handed ==> a in h.blocks)
    && forall a :: a in h.blocks ==> Placed(h, a)
  }

  predicate Placed(h: Heap, a: Addr)
    requires Shaped(h) && a in h.blocks
  {
    h.blocks[a] < BINS && (a !in h.handed ==> a in h.lists[h.blocks[a]] && ZeroFrom(h.mem, a, 1, h.blocks[a]))
  }

  predicate Inv(h: Heap) {
    Shaped(h) && Carved(h) && Partitioned(h) && forall bin :: 0 <= bin < BINS ==> GoodBin(h, bin)
  }

  // ---------------------------------------------------------------- taking and giving back

  /** The first free block of a bin is unlinked and its link cleared. */
  function Take(h: Heap, bin: nat): Heap
    requires Inv(h) && bin < BINS && h.lists[bin] != []
  {
    var a := h.lists[bin][0];
    FirstIsHead(h, bin);
    h.(mem := h.mem[a := 0], heads := h.heads[bin := h.mem[a]], lists := h.lists[bin := h.lists[bin][1..]],
      handed := h.handed + {a})
  }

  lemma FirstIsHead(h: Heap, bin: nat)
    requires Inv(h) && bin < BINS && h.lists[bin] != []
    ensures var a := h.lists[bin][0]; h.heads[bin] == a && a > 0 && a in h.mem && FreeIn(h, a, bin)
  {
    assert GoodBin(h, bin);
  }

  lemma EmptyMeansNull(h: Heap, bin: nat)
    requires Inv(h) && bin < BINS
    ensures h.heads[bin] == 0 <==> h.lists[bin] == []
  {
    assert GoodBin(h, bin);
  }

  /** A word written in one block leaves the chains of every list it is not in. */
  lemma OtherChains(h: Heap, h1: Heap, bin: nat, a: Addr)
    requires Shaped(h) && bin < BINS && GoodBin(h, bin) && Shaped(h1) && h1.heads[bin] == h.heads[bin]
    requires h1.lists[bin] == h.lists[bin]
    requires a !in h.lists[bin] && forall w :: w in h.mem ==> w in h1.mem
    requires forall i :: 0 <= i < |h.lists[bin]| ==>
             h.lists[bin][i] in h.mem && h1.mem[h.lists[bin][i]] == h.mem[h.lists[bin][i]]
    requires forall b :: b in h.blocks ==> b in h1.blocks && h1.blocks[b] == h.blocks[b]
    requires forall b :: b in h1.handed ==> b in h.handed || b == a
    ensures GoodBin(h1, bin)
  {
    var list := h.lists[bin];
    ChainSame(h.mem, h1.mem, h.heads[bin], list);
    forall i | 0 <= i < |list| ensures FreeIn(h1, h1.lists[bin][i], bin) { assert FreeIn(h, list[i], bin); }
  }

  lemma Elsewhere(h: Heap, a: Addr, b: Addr)
    requires Carved(h) && a in h.blocks && b in h.blocks && a != b
    ensures a + BinWords(h.blocks[a]) <= b || b + BinWords(h.blocks[b]) <= a
  {
    assert ApartBlocks(a, h.blocks[a], b, h.blocks[b]);
  }

  /** A change inside one block leaves the free blocks elsewhere zero. */
  lemma StillZero(mem: Memory, mem1: Memory, a: Addr, b: Addr, bin: nat)
    requires ZeroFrom(mem, b, 1, bin)
    requires forall w :: b <= w < b + BinWords(bin) && w in mem ==> w in mem1 && mem1[w] == mem[w]
    ensures ZeroFrom(mem1, b, 1, bin)
  {
  }

  /** Taking a block: it was free, it is zero from end to end, and nothing else changes hands. */
  lemma TakeKeeps(h: Heap, bin: nat)
    requires Inv(h) && bin < BINS && h.lists[bin] != []
    ensures Inv(Take(h, bin))
    ensures var a := h.lists[bin][0];
            && a !in h.handed && a in h.blocks && h.blocks[a] == bin && ZeroFrom(Take(h, bin).mem, a, 0, bin)
  {
    hide ZeroFrom, Mapped, ApartBlocks;
    var h1, a := Take(h, bin), h.lists[bin][0];
    FirstIsHead(h, bin);
    assert GoodBin(h, bin) && GoodBlock(h, a) && Placed(h, a);
    assert Carved(h1) by {
      forall b | b in h1.blocks ensures GoodBlock(h1, b) {
        assert GoodBlock(h, b);
        MappedSame(h.mem, h1.mem, b, h.blocks[b]);
      }
    }
    assert Partitioned(h1) by {
      forall b | b in h1.blocks ensures Placed(h1, b) {
        assert Placed(h, b);
        if b !in h1.handed {
          TakeZero(h, h1, a, b);
          if h.blocks[b] == bin { InTail(h.lists[bin], b); }
        }
      }
    }
    BlocksMapped(h);
    forall c | 0 <= c < BINS ensures GoodBin(h1, c) {
      assert GoodBin(h, c);
      assert c != bin ==> a !in h.lists[c] by { if c != bin && a in h.lists[c] { ListedHere(h, c, a); } }
      if c == bin { TailIsGood(h, h1, bin); } else { OtherBin(h, h1, c, a); }
    }
    ZeroWhole(h.mem, a, bin);
  }

  lemma ListedHere(h: Heap, c: nat, a: Addr)
    requires Inv(h) && c < BINS && a in h.lists[c]
    ensures a in h.blocks && h.blocks[a] == c
  {
    assert GoodBin(h, c);
    var i :| 0 <= i < |h.lists[c]| && h.lists[c][i] == a;
    assert FreeIn(h, h.lists[c][i], c);
  }

  lemma MappedSame(mem: Memory, mem1: Memory, a: Addr, bin: nat)
    requires Mapped(mem, a, bin) && forall w :: w in mem ==> w in mem1
    ensures Mapped(mem1, a, bin)
  {
  }

  lemma TakeZero(h: Heap, h1: Heap, a: Addr, b: Addr)
    requires Carved(h) && a in h.blocks && b in h.blocks && a != b && h1.mem == h.mem[a := 0]
    requires ZeroFrom(h.mem, b, 1, h.blocks[b])
    ensures ZeroFrom(h1.mem, b, 1, h.blocks[b])
  {
    Elsewhere(h, b, a);
  }

  lemma ZeroWhole(mem: Memory, a: Addr, bin: nat)
    requires ZeroFrom(mem, a, 1, bin) && a in mem
    ensures ZeroFrom(mem[a := 0], a, 0, bin)
  {
  }

  lemma InTail(list: seq<Addr>, b: Addr)
    requires list != [] && b in list && b != list[0]
    ensures b in list[1..]
  {
    var i :| 0 <= i < |list| && list[i] == b;
    assert list[1..][i - 1] == b;
  }

  lemma TailIsGood(h: Heap, h1: Heap, bin: nat)
    requires Inv(h) && bin < BINS && h.lists[bin] != [] && h1 == Take(h, bin)
    ensures GoodBin(h1, bin)
  {
    assert GoodBin(h, bin);
    var list, a := h.lists[bin], h.lists[bin][0];
    var rest := list[1..];
    assert forall i :: 0 <= i < |rest| ==> rest[i] == list[i + 1];
    forall i | 0 <= i < |rest| ensures FreeIn(h1, rest[i], bin) && rest[i] in h1.mem {
      assert FreeIn(h, list[i + 1], bin) && GoodBlock(h, list[i + 1]);
    }
    ChainSame(h.mem, h1.mem, h.mem[a], rest);
  }

  /** A bin none of whose blocks changed. */
  lemma OtherBin(h: Heap, h1: Heap, c: nat, a: Addr)
    requires Inv(h) && Shaped(h1) && c < BINS && h1.heads[c] == h.heads[c] && h1.lists[c] == h.lists[c]
    requires forall w :: w in h.mem ==> w in h1.mem
    requires forall b :: b in h.blocks ==> b in h1.blocks && h1.blocks[b] == h.blocks[b]
    requires forall b :: b in h1.handed ==> b in h.handed || b == a
    requires a !in h.lists[c]
    requires forall b :: b in h.blocks && b != a ==> b in h.mem && h1.mem[b] == h.mem[b]
    ensures GoodBin(h1, c)
  {
    assert GoodBin(h, c);
    forall i | 0 <= i < |h.lists[c]| ensures h.lists[c][i] in h.mem && h1.mem[h.lists[c][i]] == h.mem[h.lists[c][i]] {
      assert FreeIn(h, h.lists[c][i], c);
    }
    OtherChains(h, h1, c, a);
  }

  /** memset from the second word of a block on. */
  function Cleared(mem: Memory, a: Addr, bin: nat): Memory {
    map w | w in mem :: if a + 1 <= w < a + BinWords(bin) then 0 else mem[w]
  }

  /** A block handed out goes back in front of its bin's list. */
  function Put(h: Heap, a: Addr): Heap
    requires Shaped(h) && a in h.blocks && h.blocks[a] < BINS
  {
    var bin := h.blocks[a];
    h.(mem := Cleared(h.mem, a, bin)[a := h.heads[bin]], heads := h.heads[bin := a],
      lists := h.lists[bin := [a] + h.lists[bin]], handed := h.handed - {a})
  }

  lemma PutKeeps(h: Heap, a: Addr)
    requires Inv(h) && a in h.handed
    ensures a in h.blocks && h.blocks[a] < BINS && Inv(Put(h, a))
  {
    hide ZeroFrom, Mapped, ApartBlocks;
    assert a in h.blocks && GoodBlock(h, a);
    var h1, bin := Put(h, a), h.blocks[a];
    assert Carved(h1) by {
      forall b | b in h1.blocks ensures GoodBlock(h1, b) {
        assert GoodBlock(h, b);
        MappedSame(h.mem, h1.mem, b, h.blocks[b]);
      }
    }
    assert Partitioned(h1) by {
      forall b | b in h1.blocks ensures Placed(h1, b) {
        assert Placed(h, b);
        if b == a { PutZero(h, a); } else if b !in h1.handed { OthersZero(h, h1, a, b); }
      }
    }
    forall c | 0 <= c < BINS ensures GoodBin(h1, c) {
      assert GoodBin(h, c);
      assert a !in h.lists[c] by { if a in h.lists[c] { InList(h, c, a); } }
      if c == bin { PushedIsGood(h, h1, bin, a); } else { BlocksMapped(h); HeadsKept(h, a); OtherBin(h, h1, c, a); }
    }
  }

  lemma InList(h: Heap, c: nat, a: Addr)
    requires Inv(h) && c < BINS && a in h.lists[c]
    ensures a !in h.handed
  {
    assert GoodBin(h, c);
    var i :| 0 <= i < |h.lists[c]| && h.lists[c][i] == a;
    assert FreeIn(h, h.lists[c][i], c);
  }

  lemma BlocksMapped(h: Heap)
    requires Carved(h)
    ensures forall b :: b in h.blocks ==> b in h.mem
  {
    forall b | b in h.blocks ensures b in h.mem { assert GoodBlock(h, b); }
  }

  /** Putting a block back changes no other block. */
  lemma HeadsKept(h: Heap, a: Addr)
    requires Inv(h) && a in h.blocks && h.blocks[a] < BINS
    ensures forall b :: b in h.blocks && b != a && b in h.mem ==> Put(h, a).mem[b] == h.mem[b]
  {
    forall b | b in h.blocks && b != a && b in h.mem ensures Put(h, a).mem[b] == h.mem[b] { Elsewhere(h, a, b); }
  }

  lemma PutZero(h: Heap, a: Addr)
    requires Shaped(h) && a in h.blocks && h.blocks[a] < BINS && Mapped(h.mem, a, h.blocks[a])
    ensures ZeroFrom(Put(h, a).mem, a, 1, h.blocks[a])
  {
  }

  lemma OthersZero(h: Heap, h1: Heap, a: Addr, b: Addr)
    requires Inv(h) && a in h.blocks && b in h.blocks && a != b && h.blocks[a] < BINS && h1 == Put(h, a)
    requires ZeroFrom(h.mem, b, 1, h.blocks[b])
    ensures ZeroFrom(h1.mem, b, 1, h.blocks[b])
  {
    Elsewhere(h, b, a);
  }

  lemma PushedIsGood(h: Heap, h1: Heap, bin: nat, a: Addr)
    requires Inv(h) && a in h.handed && a in h.blocks && h.blocks[a] == bin < BINS && h1 == Put(h, a)
    requires a !in h.lists[bin]
    ensures GoodBin(h1, bin)
  {
    assert GoodBin(h, bin) && GoodBlock(h, a);
    var list := h.lists[bin];
    HeadsKept(h, a);
    forall i | 0 <= i < |list| ensures list[i] in h1.mem && (list[i] in h.mem ==> h1.mem[list[i]] == h.mem[list[i]])
      && list[i] != a {
      assert FreeIn(h, list[i], bin) && GoodBlock(h, list[i]);
    }
    ChainSame(h.mem, h1.mem, h.heads[bin], list);
    assert ([a] + list)[1..] == list;
    forall i | 0 <= i < |h1.lists[bin]| ensures FreeIn(h1, h1.lists[bin][i], bin) {
      if i > 0 { assert FreeIn(h, list[i - 1], bin); }
    }
  }

  /** A client writes into a block it holds. */
  lemma WriteKeeps(h: Heap, a: Addr, k: nat, v: nat)
    requires Inv(h) && a in h.handed && a in h.blocks && k < BinWords(h.blocks[a])
    ensures Inv(h.(mem := h.mem[a + k := v]))
  {
    hide ApartBlocks, Mapped, ZeroFrom;
    var h1 := h.(mem := h.mem[a + k := v]);
    assert Carved(h1) by {
      forall b | b in h1.blocks ensures GoodBlock(h1, b) {
        assert GoodBlock(h, b);
        MappedSame(h.mem, h1.mem, b, h.blocks[b]);
      }
    }
    assert Partitioned(h1) by {
      forall b | b in h1.blocks ensures Placed(h1, b) {
        assert Placed(h, b);
        if b !in h.handed {
          Elsewhere(h, b, a);
          StillZero(h.mem, h1.mem, a, b, h.blocks[b]);
        }
      }
    }
    BlocksMapped(h);
    forall b | b in h.blocks && b != a ensures h1.mem[b] == h.mem[b] { Elsewhere(h, a, b); }
    forall c | 0 <= c < BINS ensures GoodBin(h1, c) {
      assert a !in h.lists[c] by { if a in h.lists[c] { InList(h, c, a); } }
      OtherBin(h, h1, c, a);
    }
  }

  // ---------------------------------------------------------------- refilling

  /** Fresh memory is zero. */
  function MapZero(mem: Memory, base: Addr, n: nat): (r: Memory)
    ensures forall w :: w in r <==> w in mem || base <= w < base + n
    ensures forall w :: w in r ==> r[w] == if base <= w < base + n then 0 else mem[w]
  {
    if n == 0 then mem else MapZero(mem, base, n - 1)[base + n - 1 := 0]
  }

  predicate Unmapped(mem: Memory, base: Addr, n: nat) {
    forall w :: base <= w < base + n ==> w !in mem
  }

  /** A stretch of zero words that no block reaches into. */
  predicate Uncarved(h: Heap, base: Addr, n: nat) {
    && (forall w :: base <= w < base + n ==> w in h.mem && h.mem[w] == 0)
    && forall b :: b in h.blocks ==> b + BinWords(h.blocks[b]) <= base || base + n <= b
  }

  /** The fresh region a slab comes in. */
  lemma {:induction false} MapKeeps(h: Heap, base: Addr, n: nat)
    requires Inv(h) && n > 0 && Unmapped(h.mem, base, n)
    ensures Inv(h.(mem := MapZero(h.mem, base, n))) && Uncarved(h.(mem := MapZero(h.mem, base, n)), base, n)
  {
    hide ApartBlocks;
    var h1 := h.(mem := MapZero(h.mem, base, n));
    forall b | b in h.blocks ensures GoodBlock(h1, b) && (b + BinWords(h.blocks[b]) <= base || base + n <= b) {
      assert GoodBlock(h, b);
      if b < base + n && base < b + BinWords(h.blocks[b]) {
        MappedAt(h.mem, b, h.blocks[b], if base < b then b else base);
      }
    }
    forall b | b in h1.blocks ensures Placed(h1, b) { assert Placed(h, b); }
    BlocksMapped(h);
    forall b | b in h.blocks ensures h1.mem[b] == h.mem[b] { assert b in h.mem; }
    forall c | 0 <= c < BINS ensures GoodBin(h1, c) {
      NoNullListed(h, c);
      OtherBin(h, h1, c, 0);
    }
  }

  lemma MappedAt(mem: Memory, a: Addr, bin: nat, w: Addr)
    requires Mapped(mem, a, bin) && a <= w < a + BinWords(bin)
    ensures w in mem
  {
  }

  lemma NoNullListed(h: Heap, c: nat)
    requires Inv(h) && c < BINS
    ensures 0 !in h.lists[c]
  {
    assert GoodBin(h, c);
    forall i | 0 <= i < |h.lists[c]| ensures h.lists[c][i] != 0 {
      assert FreeIn(h, h.lists[c][i], c) && GoodBlock(h, h.lists[c][i]);
    }
  }

  /** One more block carved from the end of the stretch and linked in front. */
  function CarveOne(h: Heap, bin: nat, a: Addr): Heap
    requires Shaped(h) && bin < BINS
  {
    h.(mem := h.mem[a := h.heads[bin]], heads := h.heads[bin := a], lists := h.lists[bin := [a] + h.lists[bin]],
      blocks := h.blocks[a := bin])
  }

  lemma CarveKeeps(h: Heap, bin: nat, base: Addr, n: nat)
    requires Inv(h) && bin < BINS && base > 0 && base % 2 == 0 && n % 2 == 0 && Uncarved(h, base, n + BinWords(bin))
    ensures base + n !in h.blocks && Inv(CarveOne(h, bin, base + n)) && Uncarved(CarveOne(h, bin, base + n), base, n)
  {
    var a: Addr := base + n;
    var h1 := CarveOne(h, bin, a);
    NotYetBlock(h, bin, base, n);
    CarvedIn(h, h1, bin, base, n);
    CarvedZero(h, h1, bin, base, n);
    BlocksMapped(h);
    hide Uncarved, Carved, ZeroFrom;
    assert Partitioned(h1) by {
      forall b | b in h1.blocks ensures Placed(h1, b) {
        if b != a { assert Placed(h, b); }
      }
    }
    forall c | 0 <= c < BINS ensures GoodBin(h1, c) {
      assert a !in h.lists[c] by { if a in h.lists[c] { ListedHere(h, c, a); } }
      if c == bin { CarvedIsGood(h, h1, bin, a); } else { OtherBin(h, h1, c, a); }
    }
  }

  lemma NotYetBlock(h: Heap, bin: nat, base: Addr, n: nat)
    requires Uncarved(h, base, n + BinWords(bin))
    ensures base + n !in h.blocks && base + n in h.mem
  {
  }

  lemma CarvedIn(h: Heap, h1: Heap, bin: nat, base: Addr, n: nat)
    requires Inv(h) && bin < BINS && base > 0 && base % 2 == 0 && n % 2 == 0 && Uncarved(h, base, n + BinWords(bin))
    requires base + n !in h.blocks && h1 == CarveOne(h, bin, base + n)
    ensures Carved(h1) && Uncarved(h1, base, n)
  {
    hide GoodBin, Placed, ZeroFrom;
    StillUncarved(h, h1, bin, base, n);
    forall b | b in h1.blocks ensures GoodBlock(h1, b) {
      if b != base + n { assert GoodBlock(h, b); }
    }
  }

  lemma StillUncarved(h: Heap, h1: Heap, bin: nat, base: Addr, n: nat)
    requires Shaped(h) && bin < BINS && Uncarved(h, base, n + BinWords(bin)) && h1 == CarveOne(h, bin, base + n)
    ensures Uncarved(h1, base, n)
  {
  }

  lemma CarvedZero(h: Heap, h1: Heap, bin: nat, base: Addr, n: nat)
    requires bin < BINS && Uncarved(h, base, n + BinWords(bin)) && Shaped(h) && h1 == CarveOne(h, bin, base + n)
    ensures ZeroFrom(h1.mem, base + n, 1, bin)
    ensures forall b :: b in h.blocks ==> (ZeroFrom(h.mem, b, 1, h.blocks[b]) ==> ZeroFrom(h1.mem, b, 1, h.blocks[b]))
  {
  }

  lemma CarvedIsGood(h: Heap, h1: Heap, bin: nat, a: Addr)
    requires Inv(h) && bin < BINS && a > 0 && a in h.mem && a !in h.blocks && h1 == CarveOne(h, bin, a)
    requires a !in h.lists[bin] && a !in h.handed
    ensures GoodBin(h1, bin)
  {
    assert GoodBin(h, bin);
    var list := h.lists[bin];
    forall i | 0 <= i < |list| ensures list[i] in h1.mem && (list[i] in h.mem ==> h1.mem[list[i]] == h.mem[list[i]])
      && list[i] != a {
      assert FreeIn(h, list[i], bin) && GoodBlock(h, list[i]);
    }
    ChainSame(h.mem, h1.mem, h.heads[bin], list);
    assert ([a] + list)[1..] == list;
    forall i | 0 <= i < |h1.lists[bin]| ensures FreeIn(h1, h1.lists[bin][i], bin) {
      if i > 0 { assert FreeIn(h, list[i - 1], bin); }
    }
  }

  // ---------------------------------------------------------------- a slab that cannot be mapped

  /** The words that calloc's region for so many bytes has. */
  function RegionWords(size: nat): nat {
    (size + WORD - 1) / WORD
  }

  /** A region from calloc taken for a block of the bin, as a later free takes it. */
  ghost function Adopted(h: Heap, bin: nat, a: Addr, n: nat): Heap {
    h.(mem := MapZero(h.mem, a, n), blocks := h.blocks[a := bin], handed := h.handed + {a})
  }

  /** That keeps the invariant exactly if the region is as long as the blocks of the bin. */
  lemma {:induction false} AdoptKeepsIff(h: Heap, bin: nat, a: Addr, n: nat)
    requires Inv(h) && bin < BINS && a > 0 && a % 2 == 0 && n > 0 && Unmapped(h.mem, a, n) && a + n !in h.mem
    ensures Inv(Adopted(h, bin, a, n)) <==> n >= BinWords(bin)
  {
    hide Inv;
    if n >= BinWords(bin) {
      AdoptKeeps(h, bin, a, n);
    } else if Inv(Adopted(h, bin, a, n)) {
      MustBeMapped(Adopted(h, bin, a, n), a, a + n);
    }
  }

  /** So a region for `size` bytes can take part as a block exactly if the size is a multiple of 16 or more than 8
      above one. */
  lemma {:induction false} RegionFitsIff(h: Heap, size: nat, a: Addr)
    requires Inv(h) && BinOf(size).Some? && a > 0 && a % 2 == 0
    requires Unmapped(h.mem, a, RegionWords(size)) && a + RegionWords(size) !in h.mem
    ensures Inv(Adopted(h, BinOf(size).value, a, RegionWords(size))) <==> size % GRANULE == 0 || size % GRANULE > WORD
  {
    hide Inv, Unmapped;
    AdoptKeepsIff(h, BinOf(size).value, a, RegionWords(size));
  }

  lemma {:induction false} MustBeMapped(h: Heap, a: Addr, w: Addr)
    requires Inv(h) && a in h.blocks && a <= w < a + BinWords(h.blocks[a])
    ensures w in h.mem
  {
    assert GoodBlock(h, a);
  }

  lemma {:induction false} AdoptKeeps(h: Heap, bin: nat, a: Addr, n: nat)
    requires Inv(h) && bin < BINS && a > 0 && a % 2 == 0 && n >= BinWords(bin) && Unmapped(h.mem, a, n)
    ensures Inv(Adopted(h, bin, a, n)) && a !in h.blocks && ZeroFrom(Adopted(h, bin, a, n).mem, a, 0, bin)
  {
    hide ZeroFrom, Mapped, ApartBlocks, Uncarved;
    MapKeeps(h, a, n);
    var h0, h1 := h.(mem := MapZero(h.mem, a, n)), Adopted(h, bin, a, n);
    AdoptedIsBlock(h0, h1, bin, a, n);
    assert Partitioned(h1) by {
      forall b | b in h1.blocks ensures Placed(h1, b) {
        if b != a { assert Placed(h0, b); }
      }
    }
    BlocksMapped(h0);
    forall c | 0 <= c < BINS ensures GoodBin(h1, c) {
      assert a !in h.lists[c] by { if a in h.lists[c] { ListedHere(h, c, a); } }
      OtherBin(h0, h1, c, a);
    }
  }

  lemma {:induction false} AdoptedIsBlock(h0: Heap, h1: Heap, bin: nat, a: Addr, n: nat)
    requires Inv(h0) && bin < BINS && a > 0 && a % 2 == 0 && n >= BinWords(bin) && Uncarved(h0, a, n)
    requires h1 == h0.(blocks := h0.blocks[a := bin], handed := h0.handed + {a})
    ensures Carved(h1) && a !in h0.blocks && ZeroFrom(h1.mem, a, 0, bin)
  {
    hide GoodBin, Placed;
    forall b | b in h1.blocks ensures GoodBlock(h1, b) {
      if b != a { assert GoodBlock(h0, b); }
    }
  }

  // ---------------------------------------------------------------- the allocator

  /** A size served from a bin comes as a block, and if no slab can be mapped possibly as a region of the C
      library that is too short for the bin. Anything else is passed on to the C library, and an alignment that is
      no power of two times the pointer size is refused. */
  datatype Answer = Block(a: Addr) | Short(a: Addr) | Library | Refused

  predicate PowerOfTwo(n: nat)
    decreases n
  {
    n == 1 || (n > 1 && n % 2 == 0 && PowerOfTwo(n / 2))
  }

  /** is_valid_alignment. */
  predicate ValidAlignment(align: nat) {
    align <= WORD || (align % WORD == 0 && PowerOfTwo(align))
  }

  function Doubled(k: nat): (n: nat)
    ensures n > 0
  {
    if k == 0 then 1 else 2 * Doubled(k - 1)
  }

  lemma {:induction false} DoubledMore(k: nat)
    ensures Doubled(k + 1) == 2 * Doubled(k) && Doubled(k + 3) == 8 * Doubled(k)
  {
    assert Doubled(k + 2) == 2 * Doubled(k + 1);
    assert Doubled(k + 3) == 2 * Doubled(k + 2);
  }

  lemma {:induction false} PowerOfTwoIff(n: nat)
    ensures PowerOfTwo(n) <==> exists k: nat :: n == Doubled(k)
    decreases n
  {
    if n == 1 {
      assert n == Doubled(0);
    } else if n > 1 {
      PowerOfTwoIff(n / 2);
      if k: nat :| n / 2 == Doubled(k) {
        DoubledMore(k);
      }
      forall k: nat | n == Doubled(k) ensures k > 0 && n == 2 * Doubled(k - 1) {}
    } else {
      forall k: nat ensures n != Doubled(k) {}
    }
  }

  /** Valid are all up to a pointer's size, and above it the powers of two. */
  lemma {:induction false} AlignmentsAre(align: nat)
    ensures ValidAlignment(align) <==> align <= 8 || exists k: nat :: align == 8 * Doubled(k)
  {
    PowerOfTwoIff(align);
    if k: nat :| align == 8 * Doubled(k) {
      DoubledMore(k);
    }
    if align > 8 && ValidAlignment(align) {
      var k: nat :| align == Doubled(k);
      if k < 3 {
        assert Doubled(1) == 2 * Doubled(0) && Doubled(2) == 2 * Doubled(1);
      } else {
        DoubledMore(k - 3);
      }
    }
  }

  /** sf_default_allocator_returns_zeroed. */
  predicate ReturnsZeroed(size: nat, align: nat) {
    align <= WORD && BinOf(size).Some?
  }

  /** The slab for a bin: 64 blocks, rounded up to whole pages. */
  function SlabBytes(bin: nat, page: nat): nat
    requires page > 0
  {
    (BinBytes(bin) * REFILL_BLOCKS + page - 1) / page * page
  }

  /** How many words a refill, or calloc in its place, asks the system for. */
  function Wanted(size: nat, page: nat, room: bool): nat
    requires page > 0 && BinOf(size).Some?
  {
    if room then SlabBytes(BinOf(size).value, page) / WORD else RegionWords(size)
  }

  lemma SlabIsEnough(bin: nat, page: nat)
    requires bin < BINS && page > 0 && page % GRANULE == 0
    ensures SlabBytes(bin, page) >= BinBytes(bin) * REFILL_BLOCKS
    ensures var count := SlabBytes(bin, page) / BinBytes(bin);
            count >= REFILL_BLOCKS && count * BinBytes(bin) <= SlabBytes(bin, page)
  {
    var need, size := BinBytes(bin) * REFILL_BLOCKS, BinBytes(bin);
    RoundedUp(need, page);
    var slab := SlabBytes(bin, page);
    Quotient(slab, size, REFILL_BLOCKS);
  }

  /** The least number of whole pages that hold 64 blocks. */
  lemma {:induction false} SlabIs(bin: nat, page: nat) returns (pages: nat)
    requires page > 0
    ensures SlabBytes(bin, page) == pages * page
    ensures 1024 * (bin + 1) <= pages * page < 1024 * (bin + 1) + page
  {
    var need := 1024 * (bin + 1);
    pages := (need + page - 1) / page;
    assert need + page - 1 == page * pages + (need + page - 1) % page;
    assert pages * page == page * pages;
  }

  lemma RoundedUp(need: nat, page: nat)
    requires page > 0
    ensures need <= (need + page - 1) / page * page
  {
    var q := (need + page - 1) / page;
    assert need + page - 1 == page * q + (need + page - 1) % page;
    assert q * page == page * q;
  }

  lemma Quotient(slab: nat, size: nat, k: nat)
    requires size > 0 && slab >= size * k
    ensures slab / size >= k && slab / size * size <= slab
  {
    var q := slab / size;
    assert slab == size * q + slab % size && q * size == size * q;
    assert size * (q + 1) == size * q + size;
    if q < k { Times(size, q + 1, k); }
  }

  lemma Times(a: nat, x: nat, y: nat)
    requires x <= y
    ensures a * x <= a * y
  {
  }

  class Bins {
    var mem: Memory
    var heads: seq<Addr>
    ghost var lists: seq<seq<Addr>>
    ghost var blocks: map<Addr, nat>
    ghost var handed: set<Addr>

    ghost function View(): Heap
      reads this
    {
      Heap(mem, heads, lists, blocks, handed)
    }

    ghost predicate Valid()
      reads this
    {
      Inv(View())
    }

    constructor ()
      ensures Valid() && handed == {} && blocks == map[] && mem == map[]
    {
      mem := map[];
      heads := seq(BINS, _ => 0);
      lists := seq(BINS, _ => []);
      blocks := map[];
      handed := {};
    }

    /** refill_fast_bin: a fresh zeroed slab is carved from its end, so that the list runs upwards. */
    method Refill(bin: nat, page: nat, base: Addr)
      requires Valid() && bin < BINS && page > 0 && page % GRANULE == 0 && base > 0 && base % 2 == 0
      requires Unmapped(mem, base, SlabBytes(bin, page) / WORD)
      modifies this
      ensures Valid() && handed == old(handed) && lists[bin] != []
      ensures forall a :: a in old(blocks) ==> a in blocks && blocks[a] == old(blocks)[a]
      ensures forall a :: a in old(mem) ==> a in mem && mem[a] == old(mem)[a]
    {
      var blockSize, slabBytes := BinBytes(bin), SlabBytes(bin, page);
      var count := slabBytes / blockSize;
      SlabIsEnough(bin, page);
      SlabWords(bin, count, slabBytes);
      EmptyStretch(bin, page);
      MapKeeps(View(), base, slabBytes / WORD);
      ghost var before := View();
      mem := MapZero(mem, base, slabBytes / WORD);
      assert View() == before.(mem := mem);
      CarveSlab(bin, base, count);
    }

    /** The carving loop. */
    method CarveSlab(bin: nat, base: Addr, count: nat)
      requires Valid() && bin < BINS && base > 0 && base % 2 == 0 && count > 0
      requires Uncarved(View(), base, count * BinWords(bin))
      modifies this
      ensures Valid() && handed == old(handed) && lists[bin] != []
      ensures forall a :: a in old(blocks) ==> a in blocks && blocks[a] == old(blocks)[a]
      ensures forall a :: a in old(mem) && !(base <= a < base + count * BinWords(bin)) ==>
              a in mem && mem[a] == old(mem)[a]
    {
      hide Inv, Uncarved, SlabBytes;
      IsShaped(View());
      var words, i, left := BinWords(bin), count, count * BinWords(bin);
      EvenProduct(count, bin);
      while i > 0
        invariant 0 <= i <= count && left == i * words && left % 2 == 0
        invariant Valid() && Shaped(View()) && handed == old(handed) && (i < count ==> lists[bin] != [])
        invariant Uncarved(View(), base, left)
        invariant forall a :: a in old(blocks) ==> a in blocks && blocks[a] == old(blocks)[a]
        invariant left <= count * words
        invariant forall a :: a in old(mem) && !(base <= a < base + count * words) ==> a in mem && mem[a] == old(mem)[a]
      {
        OneLess(i, words);
        EvenProduct(i - 1, bin);
        i := i - 1;
        left := left - words;
        LinkBlock(bin, base, left);
      }
    }

    /** One block is linked in front of its bin. */
    method LinkBlock(bin: nat, base: Addr, n: nat)
      requires Valid() && Shaped(View()) && bin < BINS && base > 0 && base % 2 == 0 && n % 2 == 0
      requires Uncarved(View(), base, n + BinWords(bin))
      modifies this
      ensures Valid() && Shaped(View()) && Uncarved(View(), base, n)
      ensures base + n !in old(blocks) && handed == old(handed) && blocks == old(blocks)[base + n := bin]
      ensures mem == old(mem)[base + n := old(heads)[bin]] && lists[bin] == [base + n] + old(lists)[bin]
    {
      hide Inv, Uncarved;
      var node := base + n;
      CarveKeeps(View(), bin, base, n);
      ghost var next := CarveOne(View(), bin, node);
      mem := mem[node := heads[bin]];
      heads := heads[bin := node];
      lists := lists[bin := [node] + lists[bin]];
      blocks := blocks[node := bin];
      assert View() == next;
    }

    /** The first block of a list that is not empty. */
    method TakeFirst(bin: nat) returns (a: Addr)
      requires Valid() && bin < BINS && Shaped(View()) && lists[bin] != []
      modifies this
      ensures Valid() && blocks == old(blocks) && a in blocks && blocks[a] == bin && a % 2 == 0
      ensures a !in old(handed) && handed == old(handed) + {a} && ZeroFrom(mem, a, 0, bin)
      ensures forall b :: b in old(handed) ==>
                b in blocks && ApartBlocks(b, blocks[b], a, bin) && SameWords(old(mem), mem, b, blocks[b])
    {
      FirstIsHead(View(), bin);
      TakeKeeps(View(), bin);
      HandedApart(View(), lists[bin][0]);
      ghost var taken := Take(View(), bin);
      assert GoodBlock(View(), lists[bin][0]);
      a := heads[bin];
      heads := heads[bin := mem[a]];
      mem := mem[a := 0];
      lists := lists[bin := lists[bin][1..]];
      handed := handed + {a};
      assert View() == taken;
    }

    /** The calloc that stands in for a slab. */
    method Borrow(bin: nat, size: nat, base: Addr) returns (r: Answer)
      requires Valid() && bin < BINS && BinOf(size) == Some(bin) && base > 0 && base % 2 == 0
      requires Unmapped(mem, base, RegionWords(size))
      modifies this
      ensures Valid() && mem == MapZero(old(mem), base, RegionWords(size))
      ensures r == if RegionWords(size) >= BinWords(bin) then Block(base) else Short(base)
      ensures r.Block? ==>
                && base !in old(blocks) && handed == old(handed) + {base} && blocks == old(blocks)[base := bin]
                && ZeroFrom(mem, base, 0, bin)
      ensures r.Short? ==> handed == old(handed) && blocks == old(blocks)
    {
      ghost var before := View();
      if RegionWords(size) >= BinWords(bin) {
        AdoptKeeps(View(), bin, base, RegionWords(size));
        mem := MapZero(mem, base, RegionWords(size));
        blocks := blocks[base := bin];
        handed := handed + {base};
        assert View() == Adopted(before, bin, base, RegionWords(size));
        return Block(base);
      }
      MapKeeps(View(), base, RegionWords(size));
      mem := MapZero(mem, base, RegionWords(size));
      assert View() == before.(mem := mem);
      return Short(base);
    }

    /** default_alloc. `base` is where a slab would be mapped or, without room for one, where calloc's region
        would be. */
    method Alloc(size: nat, align: nat, page: nat, base: Addr, room: bool) returns (r: Answer)
      requires Valid() && page > 0 && page % GRANULE == 0 && base > 0 && base % 2 == 0
      requires BinOf(size).Some? ==> Unmapped(mem, base, Wanted(size, page, room))
      modifies this
      ensures Valid()
      ensures r.Refused? <==> !ValidAlignment(align)
      ensures r.Block? || r.Short? <==> align <= WORD && BinOf(size).Some?
      ensures r.Short? ==> !room && RegionWords(size) < BinWords(BinOf(size).value)
      ensures r.Library? || r.Refused? ==> View() == old(View())
      ensures forall b :: b in old(handed) ==>
                b in old(blocks) && b in blocks && blocks[b] == old(blocks)[b] && SameWords(old(mem), mem, b, blocks[b])
      ensures r.Short? ==>
                handed == old(handed) && forall w :: r.a <= w < r.a + RegionWords(size) ==> w in mem && mem[w] == 0
      ensures r.Block? ==>
                && r.a !in old(handed) && handed == old(handed) + {r.a} && r.a in blocks
                  && blocks[r.a] == BinOf(size).value
                && r.a % 2 == 0 && size <= BinWords(blocks[r.a]) * WORD
                && ZeroFrom(mem, r.a, 0, blocks[r.a])
                && forall b :: b in old(handed) ==> ApartBlocks(b, blocks[b], r.a, blocks[r.a])
    {
      if align <= WORD {
        var bin := BinOf(size);
        if bin.None? {
          return Library;
        }
        HandedAreBlocks(View());
        EmptyMeansNull(View(), bin.value);
        if heads[bin.value] == 0 && room {
          Refill(bin.value, page, base);
        }
        EmptyMeansNull(View(), bin.value);
        HandedAreBlocks(View());
        if heads[bin.value] != 0 {
          var node := TakeFirst(bin.value);
          return Block(node);
        }
        r := Borrow(bin.value, size, base);
        if r.Block? {
          NewApart(View(), base);
        }
        return;
      }
      return if ValidAlignment(align) then Library else Refused;
    }

    /** default_free, of a block asked for with the same size class. */
    method Free(a: Addr, size: nat, align: nat) returns (library: bool)
      requires Valid()
      requires (align <= WORD && BinOf(size).Some? && a != 0 ==>
               a in handed && a in blocks && blocks[a] == BinOf(size).value)
      modifies this
      ensures Valid()
      ensures library <==> a != 0 && !(align <= WORD && BinOf(size).Some?)
      ensures library || a == 0 ==> View() == old(View())
      ensures !library && a != 0 ==>
              handed == old(handed) - {a} && blocks == old(blocks) && View() == Put(old(View()), a)
    {
      if a == 0 {
        return false;
      }
      if align <= WORD {
        var bin := BinOf(size);
        if bin.Some? {
          PutKeeps(View(), a);
          ghost var after := Put(View(), a);
          mem := Cleared(mem, a, bin.value);
          mem := mem[a := heads[bin.value]];
          heads := heads[bin.value := a];
          lists := lists[bin.value := [a] + lists[bin.value]];
          handed := handed - {a};
          assert View() == after;
          return false;
        }
      }
      return true;
    }

    /** A client may write anywhere in a block it holds. */
    method Write(a: Addr, k: nat, v: nat)
      requires Valid() && a in handed && a in blocks && k < BinWords(blocks[a])
      modifies this`mem
      ensures Valid() && mem == old(mem)[a + k := v]
    {
      WriteKeeps(View(), a, k, v);
      mem := mem[a + k := v];
    }

    /** The allocation of an object, and whether sf_init_allocated_header has to clear it. It need not exactly if
        the answer comes from a bin or in place of a slab, and that is zero from end to end. */
    method AllocZeroed(size: nat, align: nat, page: nat, base: Addr, room: bool) returns (r: Answer, clear: bool)
      requires Valid() && page > 0 && page % GRANULE == 0 && base > 0 && base % 2 == 0
      requires BinOf(size).Some? ==> Unmapped(mem, base, Wanted(size, page, room))
      modifies this
      ensures Valid()
      ensures clear <==> r.Library? || r.Refused?
      ensures r.Block? ==>
              && r.a in handed && r.a in blocks && size <= BinWords(blocks[r.a]) * WORD
              && ZeroFrom(mem, r.a, 0, blocks[r.a])
      ensures r.Short? ==> forall w :: r.a <= w < r.a + RegionWords(size) ==> w in mem && mem[w] == 0
    {
      r := Alloc(size, align, page, base, room);
      clear := !ReturnsZeroed(size, align);
    }
  }

  lemma HandedAreBlocks(h: Heap)
    requires Inv(h)
    ensures Shaped(h) && forall b :: b in h.handed ==> b in h.blocks
  {
  }

  lemma NewApart(h: Heap, a: Addr)
    requires Inv(h) && a in h.blocks
    ensures forall b :: b in h.handed && b != a ==> b in h.blocks && ApartBlocks(b, h.blocks[b], a, h.blocks[a])
  {
  }

  lemma HandedApart(h: Heap, a: Addr)
    requires Inv(h) && a in h.blocks && a !in h.handed
    ensures forall b :: b in h.handed ==> b in h.blocks && ApartBlocks(b, h.blocks[b], a, h.blocks[a])
  {
  }

  lemma SlabWords(bin: nat, count: nat, slabBytes: nat)
    requires count * BinBytes(bin) <= slabBytes
    ensures count * BinWords(bin) <= slabBytes / WORD
  {
    assert count * BinBytes(bin) == count * BinWords(bin) * WORD;
  }

  lemma IsShaped(h: Heap)
    requires Inv(h)
    ensures Shaped(h)
  {
  }

  lemma EmptyStretch(bin: nat, page: nat)
    requires bin < BINS && page > 0 && page % GRANULE == 0
    ensures SlabBytes(bin, page) / WORD > 0
  {
    SlabIsEnough(bin, page);
  }

  lemma OneLess(i: nat, words: nat)
    requires i > 0
    ensures i * words == (i - 1) * words + words
  {
  }

  lemma EvenProduct(i: nat, bin: nat)
    ensures i * BinWords(bin) % 2 == 0
  {
    assert i * BinWords(bin) == 2 * (i * (bin + 1));
  }

  /** In every state the blocks are partitioned: each carved block is in exactly one place, a free list of
      its own size or the hands of one client, and no two of them share a word. */
  lemma BlocksArePartitioned(h: Heap, a: Addr, b: Addr)
    requires Inv(h) && a in h.blocks && b in h.blocks
    ensures (a in h.handed) != (exists c :: 0 <= c < BINS && a in h.lists[c])
    ensures forall c :: 0 <= c < BINS && a in h.lists[c] ==> c == h.blocks[a]
    ensures a != b ==> ApartBlocks(a, h.blocks[a], b, h.blocks[b])
    ensures a % 2 == 0
  {
    assert Placed(h, a) && GoodBlock(h, a);
    forall c | 0 <= c < BINS && a in h.lists[c] ensures c == h.blocks[a] && a !in h.handed {
      ListedHere(h, c, a);
      InList(h, c, a);
    }
    if a !in h.handed { assert a in h.lists[h.blocks[a]]; }
  }
}

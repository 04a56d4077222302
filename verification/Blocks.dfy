/** Reference counts of heap blocks under any interleaving of threads. A thread takes one shared-memory
    step at a time: a load, a compare-and-swap that may fail for no reason, a dispose or a free. */
module Blocks {

  type BlockId = nat

  const LATCHED: nat := 0xFFFF
  const MASK: nat := 0x1_0000
  const NEEDS_FREE: nat := 0x100_0000
  const HAS_COPY_DISPOSE: nat := 0x200_0000
  const IS_GC: nat := 0x800_0000
  const IS_GLOBAL: nat := 0x1000_0000
  const UINT32: nat := 0x1_0000_0000

  /** `stack` is the flags word of the stack block it was copied from; the last two count what was done to the
      block. */
  datatype Block = Block(flags: nat, stack: nat, disposed: nat, freed: nat)

  /** Where a thread is in a copy or a release. */
  datatype Pc =
    | Idle
    | Incr(b: BlockId)
    | IncrLoaded(b: BlockId, seen: nat)
    | Decr(b: BlockId)
    | DecrLoaded(b: BlockId, seen: nat)
    | HitZero(b: BlockId)
    | Disposed(b: BlockId)

  /** `held` is the references the thread owns; one being released is no longer among them. */
  datatype Thread = Thread(pc: Pc, held: multiset<BlockId>)

  datatype State = State(blocks: seq<Block>, threads: seq<Thread>)

  function Count(flags: nat): nat {
    flags % MASK
  }

  predicate NeedsFree(flags: nat) {
    flags / NEEDS_FREE % 2 == 1
  }

  predicate HasDispose(flags: nat) {
    flags / HAS_COPY_DISPOSE % 2 == 1
  }

  /** A copy takes a block for one on the stack when it is none of heap, collected or global. */
  predicate OnStack(flags: nat) {
    !NeedsFree(flags) && flags / IS_GC % 2 == 0 && flags / IS_GLOBAL % 2 == 0
  }

  /** The flags of the heap copy of a stack block: count cleared, then the free bit and one reference. */
  function HeapFlags(stack: nat): nat {
    var cleared := stack - stack % MASK;
    (if NeedsFree(cleared) then cleared else cleared + NEEDS_FREE) + 1
  }

  // ---------------------------------------------------------------- steps

  /** What a thread may do next. `Give` hands a reference to another thread. */
  datatype Op =
    | NewBlock(t: nat, stack: nat)
    | Give(t: nat, to: nat, b: BlockId)
    | StartCopy(t: nat, b: BlockId)
    | StartRelease(t: nat, b: BlockId)
    | Load(t: nat)
    | Swap(t: nat, fails: bool)
    | Finish(t: nat)

  predicate Legal(s: State, op: Op) {
    op.t < |s.threads| &&
    var th := s.threads[op.t];
    match op
    case NewBlock(_, stack) => th.pc.Idle? && stack < UINT32 && OnStack(stack)
    case Give(_, to, b) => th.pc.Idle? && to < |s.threads| && to != op.t && b in th.held
    case StartCopy(_, b) => th.pc.Idle? && b in th.held
    case StartRelease(_, b) => th.pc.Idle? && b in th.held
    case Load(_) => (th.pc.Incr? || th.pc.Decr?) && th.pc.b < |s.blocks|
    case Swap(_, _) => (th.pc.IncrLoaded? || th.pc.DecrLoaded?) && th.pc.b < |s.blocks|
    case Finish(_) => (th.pc.HitZero? || th.pc.Disposed?) && th.pc.b < |s.blocks|
  }

  function Step(s: State, op: Op): State
    requires Legal(s, op)
  {
    var th := s.threads[op.t];
    match op
    case NewBlock(t, stack) =>
      State(s.blocks + [Block(HeapFlags(stack), stack, 0, 0)],
            s.threads[t := Thread(Idle, th.held + multiset{|s.blocks|})])
    case Give(t, to, b) =>
      s.(threads := s.threads[t := Thread(Idle,
        th.held - multiset{b})][to := s.threads[to].(held := s.threads[to].held + multiset{b})])
    case StartCopy(t, b) => SetPc(s, t, Incr(b))
    case StartRelease(t, b) => s.(threads := s.threads[t := Thread(Decr(b), th.held - multiset{b})])
    case Load(t) => if th.pc.Incr? then LoadIncr(s, t) else LoadDecr(s, t)
    case Swap(t, fails) => if th.pc.IncrLoaded? then SwapIncr(s, t, fails) else SwapDecr(s, t, fails)
    case Finish(t) => if th.pc.HitZero? then Dispose(s, t) else Free(s, t)
  }

  function SetPc(s: State, t: nat, pc: Pc): State
    requires t < |s.threads|
  {
    s.(threads := s.threads[t := s.threads[t].(pc := pc)])
  }

  function SetFlags(s: State, b: BlockId, flags: nat): State
    requires b < |s.blocks|
  {
    s.(blocks := s.blocks[b := s.blocks[b].(flags := flags)])
  }

  /** The thread owns one more reference. */
  function Acquired(s: State, t: nat, b: BlockId): State
    requires t < |s.threads|
  {
    s.(threads := s.threads[t := Thread(Idle, s.threads[t].held + multiset{b})])
  }

  /** latching_incr_int up to its compare-and-swap: a latched count is left alone. */
  function LoadIncr(s: State, t: nat): State
    requires t < |s.threads| && s.threads[t].pc.Incr? && s.threads[t].pc.b < |s.blocks|
  {
    var b := s.threads[t].pc.b;
    var flags := s.blocks[b].flags;
    if Count(flags) == LATCHED then Acquired(s, t, b) else SetPc(s, t, IncrLoaded(b, flags))
  }

  function SwapIncr(s: State, t: nat, fails: bool): State
    requires t < |s.threads| && s.threads[t].pc.IncrLoaded? && s.threads[t].pc.b < |s.blocks|
  {
    var b, was := s.threads[t].pc.b, s.threads[t].pc.seen;
    if fails || s.blocks[b].flags != was then SetPc(s, t, Incr(b)) else Acquired(SetFlags(s, b, was + 1), t, b)
  }

  /** latching_decr_int: a latched count means nothing more to do, a count of zero is answered as zero. */
  function LoadDecr(s: State, t: nat): State
    requires t < |s.threads| && s.threads[t].pc.Decr? && s.threads[t].pc.b < |s.blocks|
  {
    var b := s.threads[t].pc.b;
    var flags := s.blocks[b].flags;
    if Count(flags) == LATCHED then SetPc(s, t, Idle)
    else if Count(flags) == 0 then SetPc(s, t, HitZero(b))
    else SetPc(s, t, DecrLoaded(b, flags))
  }

  function SwapDecr(s: State, t: nat, fails: bool): State
    requires t < |s.threads| && s.threads[t].pc.DecrLoaded? && s.threads[t].pc.b < |s.blocks|
  {
    var b, was := s.threads[t].pc.b, s.threads[t].pc.seen;
    if fails || s.blocks[b].flags != was || was == 0 then SetPc(s, t, Decr(b))
    else SetPc(SetFlags(s, b, was - 1), t, if Count(was - 1) == 0 then HitZero(b) else Idle)
  }

  /** The end of a release that took the count to zero: the dispose helper first, then the storage. */
  function Dispose(s: State, t: nat): State
    requires t < |s.threads| && s.threads[t].pc.HitZero? && s.threads[t].pc.b < |s.blocks|
  {
    var b := s.threads[t].pc.b;
    var block := s.blocks[b];
    if !NeedsFree(block.flags) then SetPc(s, t, Idle)
    else
      var s1 := SetPc(s, t, Disposed(b));
      if HasDispose(block.flags) then s1.(blocks := s1.blocks[b := block.(disposed := block.disposed + 1)]) else s1
  }

  function Free(s: State, t: nat): State
    requires t < |s.threads| && s.threads[t].pc.Disposed? && s.threads[t].pc.b < |s.blocks|
  {
    var b := s.threads[t].pc.b;
    SetPc(s.(blocks := s.blocks[b := s.blocks[b].(freed := s.blocks[b].freed + 1)]), t, Idle)
  }

  // ---------------------------------------------------------------- counting over threads

  /** What a thread owns of a block: its references and the one it is giving up, or (`ends`) the duty of
      freeing it. */
  function Weight(th: Thread, b: BlockId, ends: bool): nat {
    if ends then (if (th.pc.HitZero? || th.pc.Disposed?) && th.pc.b == b then 1 else 0)
    else th.held[b] + if (th.pc.Decr? || th.pc.DecrLoaded?) && th.pc.b == b then 1 else 0
  }

  function Sum(threads: seq<Thread>, b: BlockId, ends: bool): nat {
    if threads == [] then 0 else Weight(threads[0], b, ends) + Sum(threads[1..], b, ends)
  }

  /** The outstanding references of a block, and the threads about to free it. */
  function Refs(s: State, b: BlockId): nat {
    Sum(s.threads, b, false)
  }

  function Enders(s: State, b: BlockId): nat {
    Sum(s.threads, b, true)
  }

  lemma {:induction false} SumUpdate(threads: seq<Thread>, t: nat, th: Thread, b: BlockId, ends: bool)
    requires t < |threads|
    ensures Sum(threads[t := th], b, ends) + Weight(threads[t], b, ends) == Sum(threads, b, ends) + Weight(th, b, ends)
    decreases |threads|
  {
    if t > 0 {
      assert threads[t := th][1..] == threads[1..][t - 1 := th];
      SumUpdate(threads[1..], t - 1, th, b, ends);
    } else {
      assert threads[t := th][1..] == threads[1..];
    }
  }

  lemma {:induction false} SumCovers(threads: seq<Thread>, t: nat, b: BlockId, ends: bool)
    requires t < |threads|
    ensures Weight(threads[t], b, ends) <= Sum(threads, b, ends)
    decreases |threads|
  {
    if t > 0 { SumCovers(threads[1..], t - 1, b, ends); }
  }

  lemma {:induction false} SumZero(threads: seq<Thread>, b: BlockId, ends: bool)
    requires forall t :: 0 <= t < |threads| ==> Weight(threads[t], b, ends) == 0
    ensures Sum(threads, b, ends) == 0
    decreases |threads|
  {
    if threads != [] {
      assert forall t :: 0 <= t < |threads[1..]| ==> threads[1..][t] == threads[t + 1];
      SumZero(threads[1..], b, ends);
    }
  }

  // ---------------------------------------------------------------- the invariant

  /** A block's count is its outstanding references, unless it is latched; at zero exactly one thread is
      about to free it, or it is freed; the bits above never change. */
  predicate GoodBlock(block: Block, refs: int, enders: int) {
    && OnStack(block.stack) && SetsFree(block.flags, block.stack) && block.flags < UINT32
    && if Count(block.flags) == LATCHED then enders == 0 && block.disposed == 0 && block.freed == 0
       else
         && refs == Count(block.flags)
         && (refs > 0 ==> enders == 0 && block.disposed == 0 && block.freed == 0)
         && (refs == 0 ==>
               enders + block.freed == 1 && block.disposed <= 1
               && (block.freed == 1 ==> block.disposed == DisposeCalls(block)))
  }

  /** How often the dispose helper is due: once if there is one. */
  function DisposeCalls(block: Block): nat {
    if HasDispose(block.stack) then 1 else 0
  }

  /** Above the count, the heap block has the stack block's bits and the free bit, which that one had not. */
  predicate SetsFree(flags: nat, stack: nat) {
    flags / MASK == stack / MASK + NEEDS_FREE / MASK && !NeedsFree(stack)
  }

  predicate GoodThread(s: State, th: Thread) {
    && (forall b :: b in th.held ==> b < |s.blocks|)
    && match th.pc
       case Idle => true
       case Incr(b) => b < |s.blocks| && b in th.held
       case IncrLoaded(b, was) => b < |s.blocks| && b in th.held && Count(was) != LATCHED
       case Decr(b) => b < |s.blocks|
       case DecrLoaded(b, was) => b < |s.blocks| && Count(was) != LATCHED && Count(was) != 0
       case HitZero(b) => b < |s.blocks| && s.blocks[b].disposed == 0
       case Disposed(b) => b < |s.blocks| && s.blocks[b].disposed == DisposeCalls(s.blocks[b])
  }

  predicate Inv(s: State) {
    && (forall b :: 0 <= b < |s.blocks| ==> GoodBlock(s.blocks[b], Refs(s, b), Enders(s, b)))
    && (forall t :: 0 <= t < |s.threads| ==> GoodThread(s, s.threads[t]))
  }

  const UPPER_BITS: seq<nat> := [0x1_0000, 0x2_0000, 0x4_0000, 0x8_0000, 0x10_0000, 0x20_0000, 0x40_0000, 0x80_0000,
    0x100_0000, 0x200_0000, 0x400_0000, 0x800_0000, 0x1000_0000, 0x2000_0000, 0x4000_0000, 0x8000_0000]

  lemma Bit17(flags: nat, stack: nat)
    requires flags / MASK == stack / MASK + 0x100
    ensures flags / 0x2_0000 % 2 == stack / 0x2_0000 % 2
  {
    assert flags / 0x2_0000 == flags / MASK / 2 && stack / 0x2_0000 == stack / MASK / 2;
  }

  lemma Bit18(flags: nat, stack: nat)
    requires flags / MASK == stack / MASK + 0x100
    ensures flags / 0x4_0000 % 2 == stack / 0x4_0000 % 2
  {
    assert flags / 0x4_0000 == flags / MASK / 4 && stack / 0x4_0000 == stack / MASK / 4;
  }

  lemma Bit19(flags: nat, stack: nat)
    requires flags / MASK == stack / MASK + 0x100
    ensures flags / 0x8_0000 % 2 == stack / 0x8_0000 % 2
  {
    assert flags / 0x8_0000 == flags / MASK / 8 && stack / 0x8_0000 == stack / MASK / 8;
  }

  lemma Bit20(flags: nat, stack: nat)
    requires flags / MASK == stack / MASK + 0x100
    ensures flags / 0x10_0000 % 2 == stack / 0x10_0000 % 2
  {
    assert flags / 0x10_0000 == flags / MASK / 16 && stack / 0x10_0000 == stack / MASK / 16;
  }

  lemma Bit21(flags: nat, stack: nat)
    requires flags / MASK == stack / MASK + 0x100
    ensures flags / 0x20_0000 % 2 == stack / 0x20_0000 % 2
  {
    assert flags / 0x20_0000 == flags / MASK / 32 && stack / 0x20_0000 == stack / MASK / 32;
  }

  lemma Bit22(flags: nat, stack: nat)
    requires flags / MASK == stack / MASK + 0x100
    ensures flags / 0x40_0000 % 2 == stack / 0x40_0000 % 2
  {
    assert flags / 0x40_0000 == flags / MASK / 64 && stack / 0x40_0000 == stack / MASK / 64;
  }

  lemma Bit23(flags: nat, stack: nat)
    requires flags / MASK == stack / MASK + 0x100
    ensures flags / 0x80_0000 % 2 == stack / 0x80_0000 % 2
  {
    assert flags / 0x80_0000 == flags / MASK / 128 && stack / 0x80_0000 == stack / MASK / 128;
  }

  lemma LowBit(flags: nat, stack: nat, bit: nat)
    requires flags / MASK == stack / MASK + 0x100 && bit in UPPER_BITS && bit < NEEDS_FREE
    ensures flags / bit % 2 == stack / bit % 2
  {
    if bit == 0x2_0000 {
      Bit17(flags, stack);
    } else if bit == 0x4_0000 {
      Bit18(flags, stack);
    } else if bit == 0x8_0000 {
      Bit19(flags, stack);
    } else if bit == 0x10_0000 {
      Bit20(flags, stack);
    } else if bit == 0x20_0000 {
      Bit21(flags, stack);
    } else if bit == 0x40_0000 {
      Bit22(flags, stack);
    } else if bit == 0x80_0000 {
      Bit23(flags, stack);
    }
  }

  lemma HighBit(flags: nat, stack: nat, bit: nat)
    requires flags / HAS_COPY_DISPOSE == stack / HAS_COPY_DISPOSE && bit in UPPER_BITS && bit > NEEDS_FREE
    ensures flags / bit == stack / bit
  {
    var w := stack / HAS_COPY_DISPOSE;
    if bit == 0x200_0000 {
    } else if bit == 0x400_0000 {
      assert flags / 0x400_0000 == w / 2 == stack / 0x400_0000;
    } else if bit == 0x800_0000 {
      assert flags / 0x800_0000 == w / 4 == stack / 0x800_0000;
    } else if bit == 0x1000_0000 {
      assert flags / 0x1000_0000 == w / 8 == stack / 0x1000_0000;
    } else if bit == 0x2000_0000 {
      assert flags / 0x2000_0000 == w / 16 == stack / 0x2000_0000;
    } else if bit == 0x4000_0000 {
      assert flags / 0x4000_0000 == w / 32 == stack / 0x4000_0000;
    } else {
      assert flags / 0x8000_0000 == w / 64 == stack / 0x8000_0000;
    }
  }

  lemma CarryFree(flags: nat)
    requires Count(flags) != LATCHED && flags < UINT32
    ensures Count(flags + 1) == Count(flags) + 1 && (flags + 1) / MASK == flags / MASK && flags + 1 < UINT32
  {
  }

  lemma BorrowFree(flags: nat)
    requires Count(flags) != 0
    ensures Count(flags - 1) == Count(flags) - 1 && (flags - 1) / MASK == flags / MASK
  {
  }

  lemma HighBits(flags: nat, stack: nat)
    requires SetsFree(flags, stack)
    ensures NeedsFree(flags) && HasDispose(flags) == HasDispose(stack)
    ensures flags / HAS_COPY_DISPOSE == stack / HAS_COPY_DISPOSE
  {
    FreeBit(flags, stack);
    assert flags / HAS_COPY_DISPOSE == flags / NEEDS_FREE / 2 && stack / HAS_COPY_DISPOSE == stack / NEEDS_FREE / 2;
  }

  lemma FreeBit(flags: nat, stack: nat)
    requires flags / MASK == stack / MASK + 0x100
    ensures flags / NEEDS_FREE == stack / NEEDS_FREE + 1
  {
    assert flags / NEEDS_FREE == flags / MASK / 0x100 && stack / NEEDS_FREE == stack / MASK / 0x100;
  }

  /** So every bit from 16 up but the free bit is the stack block's; `bit` is its value. */
  lemma UpperBit(flags: nat, stack: nat, bit: nat)
    requires SetsFree(flags, stack) && bit in UPPER_BITS
    ensures flags / bit % 2 == if bit == NEEDS_FREE then 1 else stack / bit % 2
  {
    HighBits(flags, stack);
    if bit < NEEDS_FREE {
      LowBit(flags, stack, bit);
    } else if bit > NEEDS_FREE {
      HighBit(flags, stack, bit);
    }
  }

  // ---------------------------------------------------------------- every step keeps it

  /** A step of one thread on one block, in terms of what it does to both. */
  lemma StepKeepsOne(s: State, t: nat, th: Thread, b: BlockId, block: Block)
    requires Inv(s) && t < |s.threads| && b < |s.blocks|
    requires block.stack == s.blocks[b].stack
    requires forall c: BlockId, ends :: c != b ==> Weight(th, c, ends) == Weight(s.threads[t], c, ends)
    requires GoodBlock(block,
                       Refs(s, b) - Weight(s.threads[t], b, false) + Weight(th, b, false),
                       Enders(s, b) - Weight(s.threads[t], b, true) + Weight(th, b, true))
    requires block.disposed == s.blocks[b].disposed || (Enders(s, b) == 1 && Weight(s.threads[t], b, true) == 1)
    requires GoodThread(s.(blocks := s.blocks[b := block]), th)
    ensures Inv(State(s.blocks[b := block], s.threads[t := th]))
  {
    hide Sum, GoodBlock;
    var s1 := State(s.blocks[b := block], s.threads[t := th]);
    forall c | 0 <= c < |s1.blocks| ensures GoodBlock(s1.blocks[c], Refs(s1, c), Enders(s1, c)) {
      SumUpdate(s.threads, t, th, c, false);
      SumUpdate(s.threads, t, th, c, true);
      assert GoodBlock(s.blocks[c], Refs(s, c), Enders(s, c));
    }
    forall u | 0 <= u < |s1.threads| ensures GoodThread(s1, s1.threads[u]) {
      if u != t {
        assert GoodThread(s, s.threads[u]);
        if Weight(s.threads[u], b, true) == 1 && Weight(s.threads[t], b, true) == 1 { TwoEnders(s.threads, t, u, b); }
      }
    }
  }

  lemma {:induction false} TwoEnders(threads: seq<Thread>, t: nat, u: nat, b: BlockId)
    requires t < |threads| && u < |threads| && t != u && Weight(threads[t], b, true) == 1
    requires Weight(threads[u], b, true) == 1
    ensures Sum(threads, b, true) >= 2
    decreases |threads|
  {
    if t == 0 {
      SumCovers(threads[1..], u - 1, b, true);
    } else if u == 0 {
      SumCovers(threads[1..], t - 1, b, true);
    } else {
      TwoEnders(threads[1..], t - 1, u - 1, b);
    }
  }

  /** The facts about the block a thread works on. */
  lemma Facts(s: State, t: nat, b: BlockId)
    requires Inv(s) && t < |s.threads| && b < |s.blocks|
    ensures GoodThread(s, s.threads[t]) && GoodBlock(s.blocks[b], Refs(s, b), Enders(s, b))
    ensures Weight(s.threads[t], b, false) <= Refs(s, b) && Weight(s.threads[t], b, true) <= Enders(s, b)
  {
    SumCovers(s.threads, t, b, false);
    SumCovers(s.threads, t, b, true);
  }

  lemma LoadKeeps(s: State, t: nat)
    requires Inv(s) && Legal(s, Load(t))
    ensures Inv(Step(s, Load(t)))
  {
    hide GoodBlock, Inv;
    var th := s.threads[t];
    var b := th.pc.b;
    Facts(s, t, b);
    var block := s.blocks[b];
    var th1 :=
      if th.pc.Incr? then
        if Count(block.flags) == LATCHED then Thread(Idle, th.held + multiset{b})
          else th.(pc := IncrLoaded(b, block.flags))
      else if Count(block.flags) == LATCHED then th.(pc := Idle)
      else if Count(block.flags) == 0 then th.(pc := HitZero(b))
      else th.(pc := DecrLoaded(b, block.flags));
    LoadedBlock(block, Refs(s, b), Enders(s, b), th, th1, b);
    assert s.blocks[b := block] == s.blocks;
    StepKeepsOne(s, t, th1, b, block);
    assert Step(s, Load(t)) == State(s.blocks, s.threads[t := th1]);
  }

  lemma LoadedBlock(block: Block, refs: nat, enders: nat, th: Thread, th1: Thread, b: BlockId)
    requires GoodBlock(block, refs, enders) && Weight(th, b, false) <= refs && Weight(th, b, true) <= enders
    requires (th.pc.Incr? || th.pc.Decr?) && th.pc.b == b
    requires th1 == if th.pc.Incr? then
                      if Count(block.flags) == LATCHED then Thread(Idle, th.held + multiset{b})
                        else th.(pc := IncrLoaded(b, block.flags))
                    else if Count(block.flags) == LATCHED then th.(pc := Idle)
                    else if Count(block.flags) == 0 then th.(pc := HitZero(b))
                    else th.(pc := DecrLoaded(b, block.flags))
    ensures GoodBlock(block, refs - Weight(th, b, false) + Weight(th1, b, false), enders - Weight(th, b, true) +
            Weight(th1, b, true))
    ensures th.pc.Decr? ==> Count(block.flags) != 0
  {
  }

  lemma SwapKeeps(s: State, t: nat, fails: bool)
    requires Inv(s) && Legal(s, Swap(t, fails))
    ensures Inv(Step(s, Swap(t, fails)))
  {
    hide GoodBlock, Inv;
    var th := s.threads[t];
    var b, was := th.pc.b, th.pc.seen;
    Facts(s, t, b);
    var block := s.blocks[b];
    var lost := fails || block.flags != was;
    var block1 := if lost then block else block.(flags := if th.pc.IncrLoaded? then was + 1 else was - 1);
    var th1 :=
      if th.pc.IncrLoaded? then if lost then th.(pc := Incr(b)) else Thread(Idle, th.held + multiset{b})
      else if lost then th.(pc := Decr(b))
      else th.(pc := if Count(was - 1) == 0 then HitZero(b) else Idle);
    SwappedBlock(block, Refs(s, b), Enders(s, b), th, th1, block1, b, lost);
    assert s.blocks[b := s.blocks[b]] == s.blocks;
    StepKeepsOne(s, t, th1, b, block1);
    assert Step(s, Swap(t, fails)) == State(s.blocks[b := block1], s.threads[t := th1]);
  }

  lemma SwappedBlock(block: Block, refs: nat, enders: nat, th: Thread, th1: Thread, block1: Block, b: BlockId,
                     lost: bool)
    requires GoodBlock(block, refs, enders) && Weight(th, b, false) <= refs && Weight(th, b, true) <= enders
    requires (th.pc.IncrLoaded? || th.pc.DecrLoaded?) && th.pc.b == b && (!lost ==> th.pc.seen == block.flags)
    requires Count(th.pc.seen) != LATCHED
    requires (th.pc.DecrLoaded? ==> Count(th.pc.seen) != 0) && (th.pc.IncrLoaded? ==> b in th.held)
    requires block1 == if lost then block
             else block.(flags := if th.pc.IncrLoaded? then th.pc.seen + 1 else th.pc.seen - 1)
    requires th1 == if th.pc.IncrLoaded? then if lost then th.(pc := Incr(b)) else Thread(Idle, th.held + multiset{b})
                    else if lost then th.(pc := Decr(b))
                    else th.(pc := if Count(th.pc.seen - 1) == 0 then HitZero(b) else Idle)
    ensures GoodBlock(block1, refs - Weight(th, b, false) + Weight(th1, b, false), enders - Weight(th, b, true) +
            Weight(th1, b, true))
    ensures th1.pc.HitZero? ==> block1.disposed == 0
  {
    if !lost {
      if th.pc.IncrLoaded? { CarryFree(block.flags); } else { BorrowFree(block.flags); }
    }
    hide NeedsFree, HasDispose;
  }

  lemma FinishKeeps(s: State, t: nat)
    requires Inv(s) && Legal(s, Finish(t))
    ensures Inv(Step(s, Finish(t)))
  {
    hide GoodBlock, Inv, NeedsFree, HasDispose;
    var th := s.threads[t];
    var b := th.pc.b;
    Facts(s, t, b);
    var block := s.blocks[b];
    EnderBlock(block, Refs(s, b), Enders(s, b));
    var block1 := if th.pc.Disposed? then block.(freed := block.freed + 1)
                  else if HasDispose(block.flags) then block.(disposed := block.disposed + 1) else block;
    var th1 := th.(pc := if th.pc.HitZero? then Disposed(b) else Idle);
    FinishedBlock(block, Refs(s, b), Enders(s, b), block1, th.pc.HitZero?);
    assert s.blocks[b := block] == s.blocks;
    StepKeepsOne(s, t, th1, b, block1);
    assert Step(s, Finish(t)) == State(s.blocks[b := block1], s.threads[t := th1]);
  }

  lemma EnderBlock(block: Block, refs: nat, enders: nat)
    requires GoodBlock(block, refs, enders) && enders > 0
    ensures NeedsFree(block.flags) && HasDispose(block.flags) == HasDispose(block.stack)
    ensures enders == 1 && refs == 0 && block.freed == 0
  {
    HighBits(block.flags, block.stack);
  }

  lemma FinishedBlock(block: Block, refs: nat, enders: nat, block1: Block, first: bool)
    requires GoodBlock(block, refs, enders) && enders > 0 && HasDispose(block.flags) == HasDispose(block.stack)
    requires first ==> block.disposed == 0
    requires !first ==> block.disposed == DisposeCalls(block)
    requires block1 == if !first then block.(freed := block.freed + 1)
                       else if HasDispose(block.flags) then block.(disposed := block.disposed + 1) else block
    ensures GoodBlock(block1, refs, if first then enders else enders - 1)
    ensures first ==> block1.disposed == DisposeCalls(block1)
  {
    hide NeedsFree, HasDispose;
  }

  lemma StartKeeps(s: State, op: Op)
    requires Inv(s) && Legal(s, op) && (op.StartCopy? || op.StartRelease?)
    ensures Inv(Step(s, op))
  {
    hide GoodBlock, Inv;
    var t, b := op.t, op.b;
    Facts2(s, t, b);
    Facts(s, t, b);
    var th := s.threads[t];
    var th1 := if op.StartCopy? then th.(pc := Incr(b)) else Thread(Decr(b), th.held - multiset{b});
    assert s.blocks[b := s.blocks[b]] == s.blocks;
    StepKeepsOne(s, t, th1, b, s.blocks[b]);
    assert Step(s, op) == State(s.blocks, s.threads[t := th1]);
  }

  lemma Facts2(s: State, t: nat, b: BlockId)
    requires Inv(s) && t < |s.threads| && b in s.threads[t].held
    ensures b < |s.blocks|
  {
    assert GoodThread(s, s.threads[t]);
  }

  lemma GiveKeeps(s: State, t: nat, to: nat, b: BlockId)
    requires Inv(s) && Legal(s, Give(t, to, b))
    ensures Inv(Step(s, Give(t, to, b)))
  {
    hide GoodBlock;
    Facts2(s, t, b);
    var th, th1 := s.threads[t], Thread(Idle, s.threads[t].held - multiset{b});
    var to0, to1 := s.threads[to], s.threads[to].(held := s.threads[to].held + multiset{b});
    var s1 := Step(s, Give(t, to, b));
    forall c | 0 <= c < |s1.blocks| ensures GoodBlock(s1.blocks[c], Refs(s1, c), Enders(s1, c)) {
      GiveBalances(s.threads, t, to, b, c, false);
      GiveBalances(s.threads, t, to, b, c, true);
    }
    hide Sum, Weight;
    forall u | 0 <= u < |s1.threads| ensures GoodThread(s1, s1.threads[u]) {
      assert GoodThread(s, s.threads[u]) && GoodThread(s, th);
    }
  }

  lemma GiveBalances(threads: seq<Thread>, t: nat, to: nat, b: BlockId, c: BlockId, ends: bool)
    requires t < |threads| && to < |threads| && t != to && threads[t].pc.Idle? && b in threads[t].held
    ensures Sum(threads[t := Thread(Idle, threads[t].held - multiset{b})][to := threads[to].(held := threads[to].held +
            multiset{b})], c, ends)
            == Sum(threads, c, ends)
  {
    var th1, to1 := Thread(Idle, threads[t].held - multiset{b}), threads[to].(held := threads[to].held + multiset{b});
    SumUpdate(threads, t, th1, c, ends);
    SumUpdate(threads[t := th1], to, to1, c, ends);
    hide Sum;
  }

  lemma NewBlockKeeps(s: State, t: nat, stack: nat)
    requires Inv(s) && Legal(s, NewBlock(t, stack))
    ensures Inv(Step(s, NewBlock(t, stack)))
  {
    var n, s1 := |s.blocks|, Step(s, NewBlock(t, stack));
    var th := Thread(Idle, s.threads[t].held + multiset{n});
    FreshFlags(stack);
    hide HeapFlags, OnStack, SetsFree;
    forall ends: bool ensures Sum(s.threads, n, ends) == 0 {
      forall u | 0 <= u < |s.threads| ensures Weight(s.threads[u], n, ends) == 0 { assert GoodThread(s, s.threads[u]); }
      SumZero(s.threads, n, ends);
    }
    hide GoodBlock;
    forall c | 0 <= c < |s1.blocks| ensures GoodBlock(s1.blocks[c], Refs(s1, c), Enders(s1, c)) {
      SumUpdate(s.threads, t, th, c, false);
      SumUpdate(s.threads, t, th, c, true);
      SumCovers(s.threads, t, n, false);
      if c < n { assert GoodBlock(s.blocks[c], Refs(s, c), Enders(s, c)); }
    }
    forall u | 0 <= u < |s1.threads| ensures GoodThread(s1, s1.threads[u]) {
      assert GoodThread(s, s.threads[u]);
    }
  }

  lemma FreshFlags(stack: nat)
    requires stack < UINT32 && OnStack(stack)
    ensures Count(HeapFlags(stack)) == 1 && GoodBlock(Block(HeapFlags(stack), stack, 0, 0), 1, 0)
  {
    HeapFlagsAre(stack);
    FreshWord(stack / MASK, HeapFlags(stack));
  }

  /** A stack block has not got the free bit, so setting it adds it. */
  lemma HeapFlagsAre(stack: nat)
    requires stack < UINT32 && OnStack(stack)
    ensures HeapFlags(stack) == (stack / MASK + 0x100) * MASK + 1 && stack / MASK + 0x100 < MASK
  {
    var w := stack / MASK;
    var cleared := stack - stack % MASK;
    assert cleared == w * MASK && cleared / MASK == w;
    assert stack / NEEDS_FREE == w / 0x100 && cleared / NEEDS_FREE == w / 0x100;
    assert w / 0x100 < 255;
  }

  lemma FreshWord(w: nat, flags: nat)
    requires flags == (w + 0x100) * MASK + 1
    ensures flags / MASK == w + 0x100 && Count(flags) == 1
  {
  }

  lemma StepKeeps(s: State, op: Op)
    requires Inv(s) && Legal(s, op)
    ensures Inv(Step(s, op))
  {
    hide Inv, Step, Legal;
    match op
    case NewBlock(t, stack) => NewBlockKeeps(s, t, stack);
    case Give(t, to, b) => GiveKeeps(s, t, to, b);
    case StartCopy(_, _) => StartKeeps(s, op);
    case StartRelease(_, _) => StartKeeps(s, op);
    case Load(t) => LoadKeeps(s, t);
    case Swap(t, fails) => SwapKeeps(s, t, fails);
    case Finish(t) => FinishKeeps(s, t);
  }

  // ---------------------------------------------------------------- every run

  predicate LegalRun(s: State, ops: seq<Op>)
    decreases |ops|
  {
    ops == [] || (Legal(s, ops[0]) && LegalRun(Step(s, ops[0]), ops[1..]))
  }

  function Run(s: State, ops: seq<Op>): State
    requires LegalRun(s, ops)
    decreases |ops|
  {
    if ops == [] then s else Run(Step(s, ops[0]), ops[1..])
  }

  /** Any number of threads and no block yet. */
  function Start(n: nat): State {
    State([], seq(n, _ => Thread(Idle, multiset{})))
  }

  lemma {:induction false} RunKeeps(s: State, ops: seq<Op>)
    requires Inv(s) && LegalRun(s, ops)
    ensures Inv(Run(s, ops))
    decreases |ops|
  {
    hide Inv, Step, Legal;
    if ops != [] {
      StepKeeps(s, ops[0]);
      RunKeeps(Step(s, ops[0]), ops[1..]);
    }
  }

  /** Under every interleaving: a block's count is exactly its outstanding references or latched, its other
      bits are those of the stack block it was copied from with the free bit set, it is disposed and freed at most
      once, and only without a reference left; and nothing is left to do for it exactly when it is freed. */
  lemma {:induction false} EveryInterleaving(n: nat, ops: seq<Op>, b: BlockId)
    requires LegalRun(Start(n), ops) && b < |Run(Start(n), ops).blocks|
    ensures var (s, block) := (Run(Start(n), ops), Run(Start(n), ops).blocks[b]);
            && (Count(block.flags) == Refs(s, b) || Count(block.flags) == LATCHED)
            && OnStack(block.stack) && SetsFree(block.flags, block.stack)
            && block.disposed <= 1 && block.freed <= 1
            && (block.disposed + block.freed > 0 ==> Refs(s, b) == 0 && Count(block.flags) == 0)
            && (Count(block.flags) != LATCHED && Enders(s, b) == 0 ==>
                  (Refs(s, b) == 0 <==> block.freed == 1)
                    && (block.freed == 1 ==> block.disposed == if HasDispose(block.stack) then 1 else 0))
  {
    RunKeeps(Start(n), ops);
    assert GoodBlock(Run(Start(n), ops).blocks[b], Refs(Run(Start(n), ops), b), Enders(Run(Start(n), ops), b));
  }

  /** A step makes at most one block and leaves every block the flags it was copied with. */
  lemma StackStays(s: State, op: Op, b: BlockId)
    requires Legal(s, op) && b < |s.blocks|
    ensures b < |Step(s, op).blocks| && Step(s, op).blocks[b].stack == s.blocks[b].stack
  {
  }

  lemma {:induction false} StackRemembered(s: State, ops: seq<Op>, b: BlockId)
    requires LegalRun(s, ops) && b < |s.blocks|
    ensures b < |Run(s, ops).blocks| && Run(s, ops).blocks[b].stack == s.blocks[b].stack
    decreases |ops|
  {
    hide Step, Legal;
    if ops != [] {
      StackStays(s, ops[0], b);
      StackRemembered(Step(s, ops[0]), ops[1..], b);
    }
  }

  /** Whatever threads do after a stack block was copied to the heap, the copy has the stack block's bits above the
      count and the free bit, and once freed has been disposed once if the stack block has a dispose helper, and
      otherwise not at all. */
  lemma {:induction false} CopiedFromStack(s: State, t: nat, stack: nat, ops: seq<Op>, bit: nat)
    requires Inv(s) && t < |s.threads| && s.threads[t].pc.Idle? && stack < 0x1_0000_0000
    requires stack / 0x100_0000 % 2 == 0 && stack / 0x800_0000 % 2 == 0 && stack / 0x1000_0000 % 2 == 0
    requires LegalRun(Step(s, NewBlock(t, stack)), ops) && bit in UPPER_BITS
    ensures var r := Run(Step(s, NewBlock(t, stack)), ops);
            && |s.blocks| < |r.blocks|
            && var block := r.blocks[|s.blocks|];
            && block.flags / bit % 2 == (if bit == 0x100_0000 then 1 else stack / bit % 2)
            && (block.freed == 1 ==> block.disposed == if stack / 0x200_0000 % 2 == 1 then 1 else 0)
  {
    var s1, b := Step(s, NewBlock(t, stack)), |s.blocks|;
    NewBlockKeeps(s, t, stack);
    StackRemembered(s1, ops, b);
    RunKeeps(s1, ops);
    var r := Run(s1, ops);
    assert GoodBlock(r.blocks[b], Refs(r, b), Enders(r, b));
    UpperBit(r.blocks[b].flags, stack, bit);
  }

  // ---------------------------------------------------------------- a thread left to itself

  lemma {:induction false} Ran(s: State, op: Op, ops: seq<Op>)
    requires Legal(s, op) && LegalRun(Step(s, op), ops)
    ensures LegalRun(s, [op] + ops) && Run(s, [op] + ops) == Run(Step(s, op), ops)
  {
    hide Legal, Step;
    assert ([op] + ops)[1..] == ops;
  }

  /** What finishing takes: the dispose helper if there is one, and the storage. */
  lemma {:induction false} FinishAlone(s: State, t: nat, b: BlockId)
    requires t < |s.threads| && b < |s.blocks| && s.threads[t].pc == HitZero(b) && NeedsFree(s.blocks[b].flags)
    ensures LegalRun(s, [Finish(t), Finish(t)])
    ensures var (r, block) := (Run(s, [Finish(t), Finish(t)]), s.blocks[b]);
            && |r.blocks| == |s.blocks| && |r.threads| == |s.threads| && r.threads[t] == s.threads[t].(pc := Idle)
            && r.blocks[b] == block.(freed := block.freed + 1,
                                     disposed := block.disposed + if HasDispose(block.flags) then 1 else 0)
  {
    hide NeedsFree, HasDispose;
    var s1 := Step(s, Finish(t));
    assert LegalRun(Step(s1, Finish(t)), []);
    Ran(s1, Finish(t), []);
    Ran(s, Finish(t), [Finish(t)]);
    assert [Finish(t)] + [] == [Finish(t)] && [Finish(t)] + [Finish(t)] == [Finish(t), Finish(t)];
  }

  /** A thread that nobody disturbs gives up its reference, and if that was the last one frees the block. */
  lemma {:induction false} ReleaseAlone(s: State, t: nat, b: BlockId) returns (ops: seq<Op>)
    requires t < |s.threads| && b < |s.blocks| && s.threads[t].pc == Decr(b) && Count(s.blocks[b].flags) != 0
    requires NeedsFree(s.blocks[b].flags - 1)
    ensures LegalRun(s, ops)
    ensures var (r, block) := (Run(s, ops), s.blocks[b]);
            && |r.blocks| == |s.blocks| && |r.threads| == |s.threads| && r.threads[t] == s.threads[t].(pc := Idle)
            && if Count(block.flags) == 0xFFFF then r.blocks[b] == block
               else if Count(block.flags) > 1 then r.blocks[b] == block.(flags := block.flags - 1)
               else
                 r.blocks[b] == block.(flags := block.flags - 1, freed := block.freed + 1,
                                       disposed := block.disposed + if HasDispose(block.flags - 1) then 1 else 0)
  {
    hide NeedsFree, HasDispose;
    var s1 := Step(s, Load(t));
    if Count(s.blocks[b].flags) == 0xFFFF {
      ops := [];
    } else {
      var s2 := Step(s1, Swap(t, false));
      ops := [];
      if Count(s.blocks[b].flags) == 1 {
        ops := [Finish(t), Finish(t)];
        FinishAlone(s2, t, b);
      } else {
        assert Count(s.blocks[b].flags - 1) != 0;
      }
      Ran(s1, Swap(t, false), ops);
      ops := [Swap(t, false)] + ops;
    }
    Ran(s, Load(t), ops);
    ops := [Load(t)] + ops;
  }

  /** So from every reachable state a thread can release what it holds: the count goes down by one, and a block whose
      last reference that was is freed, after its dispose helper ran if it has one. */
  lemma {:induction false} ReleaseCompletes(s: State, t: nat, b: BlockId) returns (ops: seq<Op>)
    requires Inv(s) && t < |s.threads| && b < |s.blocks| && s.threads[t].pc.Idle? && b in s.threads[t].held
    ensures LegalRun(s, [StartRelease(t, b)] + ops)
    ensures var (r, block) := (Run(s, [StartRelease(t, b)] + ops), s.blocks[b]);
            && |r.blocks| == |s.blocks| && |r.threads| == |s.threads|
            && r.threads[t] == Thread(Idle, s.threads[t].held - multiset{b})
            && if Count(block.flags) == 0xFFFF then r.blocks[b] == block
               else
                 && r.blocks[b].flags == block.flags - 1
                 && r.blocks[b].freed == (if Count(block.flags) == 1 then 1 else 0)
                 && r.blocks[b].disposed ==
                    if Count(block.flags) == 1 && block.stack / 0x200_0000 % 2 == 1 then 1 else 0
  {
    hide Inv, Refs, Enders, SetsFree, NeedsFree, HasDispose, GoodBlock, GoodThread, Weight, Step, Legal, Count;
    Facts(s, t, b);
    HeldBlock(s, t, b);
    Begins(s, t, b);
    var s1 := Step(s, StartRelease(t, b));
    ops := ReleaseAlone(s1, t, b);
    Ran(s, StartRelease(t, b), ops);
  }

  /** And copy it: it holds one reference more, and the count goes up by one, until it is latched for good. */
  lemma {:induction false} CopyCompletes(s: State, t: nat, b: BlockId) returns (ops: seq<Op>)
    requires Inv(s) && t < |s.threads| && b < |s.blocks| && s.threads[t].pc.Idle? && b in s.threads[t].held
    ensures LegalRun(s, [StartCopy(t, b)] + ops)
    ensures var (r, block) := (Run(s, [StartCopy(t, b)] + ops), s.blocks[b]);
            && |r.blocks| == |s.blocks| && |r.threads| == |s.threads|
            && r.threads[t] == Thread(Idle, s.threads[t].held + multiset{b})
            && r.blocks[b] == block.(flags := if Count(block.flags) == 0xFFFF then block.flags else block.flags + 1)
  {
    hide Inv;
    var s1 := Step(s, StartCopy(t, b));
    var s2 := Step(s1, Load(t));
    ops := [];
    if Count(s.blocks[b].flags) != 0xFFFF {
      Ran(s2, Swap(t, false), []);
      ops := [Swap(t, false)];
      assert ops + [] == ops;
    }
    Ran(s1, Load(t), ops);
    ops := [Load(t)] + ops;
    Ran(s, StartCopy(t, b), ops);
  }

  lemma Begins(s: State, t: nat, b: BlockId)
    requires t < |s.threads| && s.threads[t].pc.Idle? && b in s.threads[t].held
    ensures Legal(s, StartRelease(t, b))
    ensures Step(s, StartRelease(t, b)) ==
            s.(threads := s.threads[t := Thread(Decr(b), s.threads[t].held - multiset{b})])
  {
  }

  lemma HeldBlock(s: State, t: nat, b: BlockId)
    requires t < |s.threads| && b < |s.blocks| && b in s.threads[t].held
    requires GoodBlock(s.blocks[b], Refs(s, b), Enders(s, b)) && Weight(s.threads[t], b, false) <= Refs(s, b)
    ensures var block := s.blocks[b];
            && Count(block.flags) != 0 && block.freed == 0 && block.disposed == 0 && NeedsFree(block.flags - 1)
            && (HasDispose(block.flags - 1) <==> block.stack / 0x200_0000 % 2 == 1)
  {
    hide Refs, Enders;
    var block := s.blocks[b];
    BorrowFree(block.flags);
    HighBits(block.flags - 1, block.stack);
  }

  /** No thread touches a freed block: every thread working on a block, or holding it, finds it unfreed. */
  lemma NoUseAfterFree(s: State, t: nat, b: BlockId)
    requires Inv(s) && t < |s.threads| && b < |s.blocks|
    requires b in s.threads[t].held || (!s.threads[t].pc.Idle? && s.threads[t].pc.b == b)
    ensures s.blocks[b].freed == 0
  {
    Facts(s, t, b);
  }

  /** A latched count stays latched, and its block is never disposed or freed. */
  lemma LatchedStep(s: State, op: Op, b: BlockId)
    requires Inv(s) && Legal(s, op) && b < |s.blocks| && Count(s.blocks[b].flags) == LATCHED
    ensures b < |Step(s, op).blocks| && Step(s, op).blocks[b] == s.blocks[b]
  {
    Facts(s, op.t, b);
  }

  lemma {:induction false} LatchedForever(s: State, ops: seq<Op>, b: BlockId)
    requires Inv(s) && LegalRun(s, ops) && b < |s.blocks| && Count(s.blocks[b].flags) == LATCHED
    ensures b < |Run(s, ops).blocks| && Run(s, ops).blocks[b] == s.blocks[b]
    decreases |ops|
  {
    hide Inv, Step, Legal;
    if ops != [] {
      StepKeeps(s, ops[0]);
      LatchedStep(s, ops[0], b);
      LatchedForever(Step(s, ops[0]), ops[1..], b);
    }
  }
}

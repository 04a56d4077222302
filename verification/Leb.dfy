/** LEB128 integers (section 7.6 of DWARF 5) as the unwinder's table reader decodes them into 64-bit
    words, and the writers that produce them. */
module Leb {

  type byte = x: int | 0 <= x < 256

  const TWO63: int := 0x8000_0000_0000_0000
  const TWO64: int := 0x1_0000_0000_0000_0000

  // ---------------------------------------------------------------- machine words

  function Pow2(n: nat): (r: nat)
    ensures r > 0
  {
    if n == 0 then 1 else 2 * Pow2(n - 1)
  }

  /** Bitwise or. */
  function Or(a: nat, b: nat): nat {
    if a == 0 && b == 0 then 0
    else (if a % 2 == 1 || b % 2 == 1 then 1 else 0) + 2 * Or(a / 2, b / 2)
  }

  /** A 64-bit left shift by less than the width. */
  function ShiftLeft(x: nat, n: nat): nat {
    x * Pow2(n) % TWO64
  }

  function ToSigned(x: int): int {
    var w := x % TWO64;
    if w < TWO63 then w else w - TWO64
  }

  lemma {:induction false} PowSum(a: nat, b: nat)
    ensures Pow2(a + b) == Pow2(a) * Pow2(b)
  {
    if a > 0 { PowSum(a - 1, b); }
  }

  lemma {:induction false} PowOrder(a: nat, b: nat)
    requires a <= b
    ensures Pow2(a) <= Pow2(b)
  {
    if a < b { PowOrder(a, b - 1); }
  }

  lemma Pow64()
    ensures Pow2(64) == TWO64
  {
    assert Pow2(4) == 16;
    hide Pow2;
    PowSum(4, 4);
    PowSum(8, 8);
    PowSum(16, 16);
    PowSum(32, 32);
  }

  /** Words without a common bit: or is addition. */
  lemma {:induction false} OrAdds(a: nat, c: nat, n: nat)
    requires a < Pow2(n)
    ensures Or(a, c * Pow2(n)) == a + c * Pow2(n)
    decreases n
  {
    if n == 0 {
      OrZero(c);
    } else {
      var m := Pow2(n - 1);
      assert c * Pow2(n) == 2 * (c * m) by { MulBy2(c, m); }
      OrAdds(a / 2, c, n - 1);
    }
  }

  lemma {:induction false} OrZero(c: nat)
    ensures Or(0, c) == c
  {
    if c > 0 { OrZero(c / 2); }
  }

  lemma MulBy2(c: int, m: int)
    ensures c * (2 * m) == 2 * (c * m)
  {
  }

  /** A shifted word below the width stays a multiple of the shift's power. */
  lemma ShiftIs(x: nat, n: nat) returns (c: nat)
    requires n <= 64
    ensures ShiftLeft(x, n) == c * Pow2(n) < TWO64 && (x * Pow2(n) - ShiftLeft(x, n)) % TWO64 == 0
    ensures x * Pow2(n) < TWO64 ==> c == x
  {
    hide Pow2;
    Pow64();
    PowSum(n, 64 - n);
    c := SplitWord(x, Pow2(n), Pow2(64 - n));
  }

  /** The part of a product that stays in the word is itself a multiple. */
  lemma SplitWord(x: nat, p: nat, q: nat) returns (c: nat)
    requires p * q == TWO64
    ensures x * p % TWO64 == c * p && (x * p - c * p) % TWO64 == 0
    ensures x * p < TWO64 ==> c == x
  {
    assert p > 0 && q > 0;
    c := x % q;
    var k := x / q;
    assert x == k * q + c;
    Distribute(k, q, c, p);
    MulOrder(c, q - 1, p);
    assert (q - 1) * p == TWO64 - p;
    assert 0 <= c * p;
    ModShift(c * p, k);
    if x * p < TWO64 { Below(x, q, p); }
  }

  lemma Distribute(a: int, q: int, c: int, p: int)
    ensures (a * q + c) * p == a * (p * q) + c * p
  {
  }

  lemma MulOrder(a: int, b: int, p: int)
    requires a <= b && p >= 0
    ensures a * p <= b * p
  {
  }

  lemma Below(x: nat, q: nat, p: nat)
    requires x * p < q * p && p > 0
    ensures x < q
  {
    if x >= q { MulOrder(q, x, p); }
  }

  lemma ModShift(r: int, k: int)
    requires 0 <= r < TWO64
    ensures (k * TWO64 + r) % TWO64 == r
  {
  }

  // ---------------------------------------------------------------- meaning of a byte sequence

  /** Every byte but the last has its top bit set. */
  predicate IsLeb(b: seq<byte>) {
    && |b| > 0 && b[|b| - 1] < 128
    && forall i :: 0 <= i < |b| - 1 ==> b[i] >= 128
  }

  /** The sum of the 7-bit groups, the first one least significant. */
  function Sum(b: seq<byte>): (r: nat) {
    if b == [] then 0 else Sum(b[..|b| - 1]) + b[|b| - 1] % 128 * Pow2(7 * (|b| - 1))
  }

  /** The value as an unsigned and as a two's-complement number of 7 bits a byte. */
  function Unsigned(b: seq<byte>): nat {
    Sum(b)
  }

  function Signed(b: seq<byte>): int
    requires |b| > 0
  {
    Sum(b) - if b[|b| - 1] % 128 >= 64 then Pow2(7 * |b|) else 0
  }

  lemma {:induction false} SumBelow(b: seq<byte>)
    ensures Sum(b) < Pow2(7 * |b|)
  {
    if b != [] {
      var n := |b| - 1;
      SumBelow(b[..n]);
      PowSum(7, 7 * n);
      assert Pow2(7) == 128;
      MulOrder(b[n] % 128, 127, Pow2(7 * n));
    }
  }

  /** The first group is the value modulo 128. */
  lemma {:induction false} SumFirst(x: byte, b: seq<byte>)
    ensures Sum([x] + b) == x % 128 + 128 * Sum(b)
  {
    var s := [x] + b;
    assert s[..|s| - 1] == if b == [] then [] else [x] + b[..|b| - 1];
    if b != [] {
      SumFirst(x, b[..|b| - 1]);
      PowSum(7, 7 * (|b| - 1));
      assert Pow2(7) == 128;
      assert s[|s| - 1] == b[|b| - 1];
      Scale(b[|b| - 1] % 128, Pow2(7 * (|b| - 1)));
    } else {
      assert s[0] == x && Pow2(0) == 1;
    }
  }

  lemma Scale(a: int, p: int)
    ensures a * (128 * p) == 128 * (a * p)
  {
  }

  lemma SignedFirst(x: byte, b: seq<byte>)
    requires |b| > 0
    ensures Signed([x] + b) == x % 128 + 128 * Signed(b)
  {
    SumFirst(x, b);
    PowSum(7, 7 * |b|);
    assert Pow2(7) == 128;
    var s := [x] + b;
    assert s[|s| - 1] == b[|b| - 1] && 7 * |s| == 7 + 7 * |b|;
  }

  // ---------------------------------------------------------------- where a number ends

  predicate Terminated(mem: seq<byte>, p: nat) {
    exists k :: p <= k < |mem| && mem[k] < 128
  }

  /** One past the first byte at or after `p` without its top bit. */
  function End(mem: seq<byte>, p: nat): (q: nat)
    requires Terminated(mem, p)
    ensures p < q <= |mem| && IsLeb(mem[p..q])
    decreases |mem| - p
  {
    if mem[p] < 128 then p + 1 else End(mem, p + 1)
  }

  lemma {:induction false} EndIs(mem: seq<byte>, p: nat, q: nat)
    requires p < q <= |mem| && IsLeb(mem[p..q])
    ensures Terminated(mem, p) && End(mem, p) == q
    decreases q - p
  {
    assert mem[p..q][q - 1 - p] == mem[q - 1] && mem[p..q][0] == mem[p];
    if q > p + 1 {
      var rest := mem[p + 1..q];
      forall i | 0 <= i < |rest| - 1 ensures rest[i] >= 128 { assert rest[i] == mem[p..q][i + 1]; }
      EndIs(mem, p + 1, q);
    }
  }

  // ---------------------------------------------------------------- the readers

  /** How far `k` groups shift: seven bits each, saturating at the word width. */
  function ShiftAfter(k: nat): nat {
    if k <= 9 then 7 * k else 64
  }

  /** One round of either loop. */
  lemma {:induction false} Accumulate(c: seq<byte>, b: byte, result: nat)
    requires result == Sum(c) % TWO64
    ensures var shift := ShiftAfter(|c|);
            (if shift < 64 then Or(result, ShiftLeft(b % 128, shift)) else result) == Sum(c + [b]) % TWO64
  {
    hide Or, ShiftLeft, Pow2;
    var n := |c|;
    var s := c + [b];
    assert Sum(s) == Sum(c) + b % 128 * Pow2(7 * n) by { assert s[..|s| - 1] == c && s[|s| - 1] == b; }
    hide Sum;
    if n <= 9 {
      Pow64();
      SumBelow(c);
      PowOrder(7 * n, 64);
      assert result == Sum(c);
      AddGroup(result, b % 128, 7 * n);
    } else {
      FullWord(n);
      PastWord(Sum(c), b % 128, Pow2(7 * n));
    }
  }

  lemma {:induction false} AddGroup(sum: nat, g: nat, n: nat)
    requires n < 64 && sum < Pow2(n)
    ensures Or(sum, ShiftLeft(g, n)) == (sum + g * Pow2(n)) % TWO64
  {
    hide Or, ShiftLeft, Pow2;
    var k := ShiftIs(g, n);
    OrAdds(sum, k, n);
    OrBelow(sum, k, n);
    AddMod(sum, g * Pow2(n), k * Pow2(n));
  }

  lemma AddMod(sum: nat, a: nat, b: nat)
    requires (a - b) % TWO64 == 0 && sum + b < TWO64
    ensures sum + b == (sum + a) % TWO64
  {
    SameMod(sum + a, sum + b);
  }

  lemma PastWord(sum: nat, g: nat, p: nat)
    requires p == p / TWO64 * TWO64
    ensures (sum + g * p) % TWO64 == sum % TWO64
  {
    MulSwap(g, TWO64, p / TWO64);
    Multiple(sum, g * (p / TWO64));
  }

  /** Ten groups or more fill the word. */
  lemma {:induction false} FullWord(n: nat)
    requires n >= 10
    ensures Pow2(7 * n) == Pow2(7 * n) / TWO64 * TWO64
  {
    hide Pow2;
    Pow64();
    PowSum(64, 7 * n - 64);
  }

  lemma MulSwap(a: int, t: int, p: int)
    ensures a * (t * p) == a * p * t
  {
  }

  lemma Multiple(a: int, k: int)
    ensures (a + k * TWO64) % TWO64 == a % TWO64
  {
  }

  lemma SameMod(a: int, b: int)
    requires (a - b) % TWO64 == 0
    ensures a % TWO64 == b % TWO64
  {
    Multiple(b, (a - b) / TWO64);
  }

  /** Filling in above the bits already there stays within the word. */
  lemma {:induction false} OrBelow(a: nat, g: nat, n: nat)
    requires n <= 64 && a < Pow2(n) && g * Pow2(n) < TWO64
    ensures a + g * Pow2(n) < TWO64
  {
    hide Pow2;
    Pow64();
    PowSum(n, 64 - n);
    var p, q := Pow2(n), Pow2(64 - n);
    assert q * p == TWO64;
    Below(g, q, p);
    MulOrder(g + 1, q, p);
    assert (g + 1) * p == g * p + p;
  }

  /** read_uleb: any terminated sequence, overlong ones included, is consumed exactly and gives the sum
      of its groups modulo 2^64. */
  method ReadUleb(mem: seq<byte>, p: nat) returns (value: nat, next: nat)
    requires Terminated(mem, p)
    ensures next == End(mem, p) && value == Unsigned(mem[p..next]) % TWO64
  {
    hide Or, ShiftLeft, Pow2, IsLeb;
    var result, shift := 0, 0;
    next := p;
    while true
      invariant p <= next < |mem| && Terminated(mem, next) && End(mem, next) == End(mem, p)
      invariant shift == ShiftAfter(next - p) && result == Sum(mem[p..next]) % TWO64
      decreases |mem| - next
    {
      var b := mem[next];
      Accumulate(mem[p..next], b, result);
      assert mem[p..next + 1] == mem[p..next] + [b];
      next := next + 1;
      if shift < 64 {
        result := Or(result, ShiftLeft(b % 128, shift));
      }
      if b < 128 {
        break;
      }
      shift := if shift <= 56 then shift + 7 else 64;
    }
    value := result;
  }

  /** The sign fills every bit above the groups; ten groups or more have already filled the word. */
  lemma SignExtend(b: seq<byte>, result: nat)
    requires |b| > 0 && result == Sum(b) % TWO64
    ensures var shift := ShiftAfter(|b|);
            (if shift < 64 && b[|b| - 1] % 128 >= 64 then Or(result, ShiftLeft(TWO64 - 1, shift))
              else result) == Signed(b) % TWO64
  {
    hide Pow2, Sum, Or, ShiftLeft;
    var n := |b|;
    SumBelow(b);
    if n <= 9 {
      Pow64();
      PowOrder(7 * n, 64);
      assert result == Sum(b);
      FillBits(result, 7 * n);
    } else {
      FullWord(n);
      Multiple(Signed(b), Pow2(7 * n) / TWO64);
    }
  }

  lemma FillBits(sum: nat, n: nat)
    requires n < 64 && sum < Pow2(n)
    ensures Or(sum, ShiftLeft(TWO64 - 1, n)) == (sum - Pow2(n)) % TWO64
  {
    hide Pow2, Or, ShiftLeft;
    var k := ShiftIs(TWO64 - 1, n);
    OrAdds(sum, k, n);
    OrBelow(sum, k, n);
    SignWord(sum, Pow2(n), ShiftLeft(TWO64 - 1, n));
  }

  lemma SignWord(sum: nat, top: nat, w: nat)
    requires ((TWO64 - 1) * top - w) % TWO64 == 0 && sum + w < TWO64
    ensures sum + w == (sum - top) % TWO64
  {
    SameMod(sum - top + top * TWO64, sum + w);
    Multiple(sum - top, top);
  }

  lemma SignBit(b: byte)
    ensures b / 64 % 2 == 1 <==> b % 128 >= 64
  {
  }

  lemma SignedAgain(x: int)
    ensures ToSigned(x % TWO64) == ToSigned(x)
  {
  }

  /** read_sleb: the two's-complement value of any terminated sequence, modulo 2^64. */
  method ReadSleb(mem: seq<byte>, p: nat) returns (value: int, next: nat)
    requires Terminated(mem, p)
    ensures next == End(mem, p) && value == ToSigned(Signed(mem[p..next]))
  {
    hide Or, ShiftLeft, Pow2, IsLeb, ToSigned;
    var result, shift, b := 0, 0, 0;
    next := p;
    while true
      invariant p <= next < |mem| && Terminated(mem, next) && End(mem, next) == End(mem, p)
      invariant shift == ShiftAfter(next - p) && result == Sum(mem[p..next]) % TWO64
      decreases |mem| - next
    {
      b := mem[next];
      Accumulate(mem[p..next], b, result);
      assert mem[p..next + 1] == mem[p..next] + [b];
      next := next + 1;
      if shift < 64 {
        result := Or(result, ShiftLeft(b % 128, shift));
      }
      shift := if shift <= 56 then shift + 7 else 64;
      if b < 128 {
        break;
      }
    }
    ghost var all := mem[p..next];
    assert shift == ShiftAfter(|all|) && all[|all| - 1] == b;
    SignBit(b);
    SignExtend(all, result);
    if shift < 64 && b / 64 % 2 == 1 {
      result := Or(result, ShiftLeft(TWO64 - 1, shift));
    }
    SignedAgain(Signed(all));
    value := ToSigned(result);
  }

  // ---------------------------------------------------------------- the writers

  /** The shortest unsigned encoding. */
  function UlebBytes(v: nat): (b: seq<byte>)
    ensures |b| > 0 && IsLeb(b)
  {
    if v < 128 then [v] else [v % 128 + 128] + UlebBytes(v / 128)
  }

  predicate LastGroup(v: int) {
    (v / 128 == 0 && v % 128 < 64) || (v / 128 == -1 && v % 128 >= 64)
  }

  /** The shortest signed encoding: the last group's top bit is the sign. */
  function SlebBytes(v: int): (b: seq<byte>)
    ensures |b| > 0 && IsLeb(b)
    decreases if v >= 0 then v else -1 - v
  {
    if LastGroup(v) then [v % 128] else [v % 128 + 128] + SlebBytes(v / 128)
  }

  lemma {:induction false} UlebMeans(v: nat)
    ensures Unsigned(UlebBytes(v)) == v
  {
    if v >= 128 {
      hide Sum, Pow2;
      UlebMeans(v / 128);
      SumFirst(v % 128 + 128, UlebBytes(v / 128));
    } else {
      SumFirst(v, []);
      assert [v] + [] == [v];
    }
  }

  lemma {:induction false} SlebMeans(v: int)
    ensures Signed(SlebBytes(v)) == v
    decreases if v >= 0 then v else -1 - v
  {
    if LastGroup(v) {
      assert Pow2(7) == 128;
      SumFirst(v % 128, []);
      assert [v % 128] + [] == [v % 128];
    } else {
      hide Signed, Sum, Pow2;
      SlebMeans(v / 128);
      SignedFirst(v % 128 + 128, SlebBytes(v / 128));
    }
  }

  lemma {:induction false} UlebLength(v: nat, n: nat)
    requires 0 < n && v < Pow2(7 * n)
    ensures |UlebBytes(v)| <= n
  {
    assert Pow2(7) == 128;
    if v >= 128 {
      PowSum(7, 7 * (n - 1));
      UlebLength(v / 128, n - 1);
    }
  }

  lemma {:induction false} SlebLength(v: int, n: nat)
    requires 0 < n && -(Pow2(7 * n - 1) as int) <= v < Pow2(7 * n - 1)
    ensures |SlebBytes(v)| <= n
    decreases n
  {
    assert Pow2(6) == 64 && Pow2(7) == 128;
    if !LastGroup(v) {
      PowSum(7, 7 * (n - 1) - 1);
      SlebLength(v / 128, n - 1);
    }
  }

  lemma {:induction false} TenAreEnough(v: int)
    ensures 0 <= v < TWO64 ==> |UlebBytes(v)| <= 10
    ensures -TWO63 <= v < TWO63 ==> |SlebBytes(v)| <= 10
  {
    Pow64();
    PowOrder(64, 69);
    PowOrder(64, 70);
    if 0 <= v < TWO64 { UlebLength(v, 10); }
    if -TWO63 <= v < TWO63 { SlebLength(v, 10); }
  }

  /** The examples of section 7.6 of DWARF 5. */
  lemma KnownNumbers()
    ensures UlebBytes(2) == [2] && UlebBytes(127) == [127] && UlebBytes(128) == [0x80, 1]
    ensures UlebBytes(129) == [0x81, 1] && UlebBytes(12857) == [57 + 0x80, 100]
    ensures SlebBytes(2) == [2] && SlebBytes(-2) == [0x7E] && SlebBytes(127) == [0xFF, 0]
    ensures SlebBytes(-127) == [0x81, 0x7F] && SlebBytes(128) == [0x80, 1] && SlebBytes(-128) == [0x80, 0x7F]
    ensures SlebBytes(129) == [0x81, 1] && SlebBytes(-129) == [0xFF, 0x7E]
  {
    assert SlebBytes(0) == [0] && SlebBytes(1) == [1] && SlebBytes(-1) == [0x7F];
  }

  function Take(b: seq<byte>, n: nat): seq<byte> {
    if |b| <= n then b else b[..n]
  }

  lemma {:induction false} UlebStep(v: nat)
    ensures UlebBytes(v) == if v / 128 != 0 then [v % 128 + 128] + UlebBytes(v / 128) else [v % 128]
  {
  }

  lemma {:induction false} SlebStep(v: int)
    ensures SlebBytes(v) == if LastGroup(v) then [v % 128] else [v % 128 + 128] + SlebBytes(v / 128)
  {
  }

  lemma TakeNone(cap: nat)
    ensures Take([], cap) == []
  {
  }

  lemma TakeMore(all: seq<byte>, b: byte, cap: nat)
    ensures Take(all + [b], cap) == if |all| < cap then Take(all, cap) + [b] else Take(all, cap)
  {
  }

  lemma Shift(all: seq<byte>, b: byte, rest: seq<byte>)
    ensures all + ([b] + rest) == all + [b] + rest
  {
  }

  /** fuzz_write_uleb: as much of the shortest encoding as fits. */
  method WriteUleb(cap: nat, v: nat) returns (dst: seq<byte>)
    requires v < TWO64
    ensures dst == Take(UlebBytes(v), cap)
  {
    hide UlebBytes, IsLeb, Take;
    var value, written := v, 0;
    dst := [];
    TenAreEnough(v);
    ghost var all: seq<byte> := [];
    TakeNone(cap);
    while true
      invariant written == |all| < 10 && dst == Take(all, cap) && all + UlebBytes(value) == UlebBytes(v)
      decreases value
    {
      var b := value % 128;
      UlebStep(value);
      value := value / 128;
      if value != 0 {
        b := b + 128;
      }
      if written < cap {
        dst := dst + [b];
      }
      written := written + 1;
      TakeMore(all, b, cap);
      Shift(all, b, UlebBytes(value));
      all := all + [b];
      if !(value != 0 && written < 10) {
        break;
      }
    }
  }

  /** fuzz_write_sleb, with the arithmetic right shift of a negative number rounding down. */
  method WriteSleb(cap: nat, v: int) returns (dst: seq<byte>)
    requires -TWO63 <= v < TWO63
    ensures dst == Take(SlebBytes(v), cap)
  {
    hide SlebBytes, IsLeb, Take;
    var value, written, more := v, 0, true;
    dst := [];
    TenAreEnough(v);
    ghost var all: seq<byte> := [];
    TakeNone(cap);
    while more && written < 10
      invariant written == |all| && dst == Take(all, cap)
      invariant if more then all + SlebBytes(value) == SlebBytes(v) else all == SlebBytes(v)
      decreases 10 - written
    {
      var b := value % 128;
      var signBit := b / 64 % 2 == 1;
      SlebStep(value);
      value := value / 128;
      more := !((value == 0 && !signBit) || (value == -1 && signBit));
      if more {
        b := b + 128;
      }
      if written < cap {
        dst := dst + [b];
      }
      written := written + 1;
      TakeMore(all, b, cap);
      Shift(all, b, SlebBytes(value));
      all := all + [b];
    }
  }

  /** Reading back what was written, whatever follows it. */
  lemma {:induction false} UlebRoundTrip(v: nat, tail: seq<byte>)
    requires v < TWO64
    ensures var mem := UlebBytes(v) + tail;
            Terminated(mem, 0) && End(mem, 0) == |UlebBytes(v)| && Unsigned(mem[0..End(mem, 0)]) % TWO64 == v
  {
    hide Sum, Pow2, IsLeb, UlebBytes;
    var b := UlebBytes(v);
    var mem := b + tail;
    assert mem[0..|b|] == b;
    EndIs(mem, 0, |b|);
    assert mem[0..End(mem, 0)] == b;
    UlebMeans(v);
  }

  lemma {:induction false} SlebRoundTrip(v: int, tail: seq<byte>)
    requires -TWO63 <= v < TWO63
    ensures var mem := SlebBytes(v) + tail;
            Terminated(mem, 0) && End(mem, 0) == |SlebBytes(v)| && ToSigned(Signed(mem[0..End(mem, 0)])) == v
  {
    hide Sum, Pow2, IsLeb, SlebBytes;
    var b := SlebBytes(v);
    var mem := b + tail;
    assert mem[0..|b|] == b;
    EndIs(mem, 0, |b|);
    assert mem[0..End(mem, 0)] == b;
    SlebMeans(v);
  }
}

/** Two's-complement bit operations on integers, and powers of two. */
module Bits {
  import opened Arithmetic

  datatype BitOp = And | Or | Xor {
    predicate Apply(a: bool, b: bool) {
      match this
      case And => a && b
      case Or => a || b
      case Xor => a != b
    }
  }

  function Pow2(k: nat): (r: nat)
    ensures r > 0
  {
    if k == 0 then 1 else 2 * Pow2(k - 1)
  }

  function Magnitude(x: int): nat {
    if x >= 0 then x else -x - 1
  }

  function Bit(b: bool): int {
    if b then 1 else 0
  }

  /** The operation on all bits of the infinite two's-complement forms of `x` and `y`. */
  function Bitwise(op: BitOp, x: int, y: int): int
    decreases Magnitude(x) + Magnitude(y)
  {
    if Magnitude(x) == 0 && Magnitude(y) == 0 then -Bit(op.Apply(x < 0, y < 0))
    else 2 * Bitwise(op, x / 2, y / 2) + Bit(op.Apply(x % 2 == 1, y % 2 == 1))
  }

  predicate IsS64(x: int) {
    -0x8000_0000_0000_0000 <= x < 0x8000_0000_0000_0000
  }

  /** Conversion to a 64-bit vector and back as a signed number. */
  function ToS64(x: int): (r: int)
    ensures IsS64(r) && (IsS64(x) ==> r == x) && (r - x) % 0x1_0000_0000_0000_0000 == 0
  {
    (x + 0x8000_0000_0000_0000) % 0x1_0000_0000_0000_0000 - 0x8000_0000_0000_0000
  }

  predicate IsS32(x: int) {
    -0x8000_0000 <= x < 0x8000_0000
  }

  function ToS32(x: int): (r: int)
    ensures IsS32(r) && (IsS32(x) ==> r == x) && (r - x) % 0x1_0000_0000 == 0
  {
    (x + 0x8000_0000) % 0x1_0000_0000 - 0x8000_0000
  }

  /** The conjunction with a non-negative number is non-negative and no greater than it. */
  lemma {:induction false} AndBounded(x: int, y: int)
    requires x >= 0
    ensures 0 <= Bitwise(And, x, y) <= x
    ensures 0 <= Bitwise(And, y, x) <= x
    decreases Magnitude(x) + Magnitude(y)
  {
    if !(Magnitude(x) == 0 && Magnitude(y) == 0) {
      AndBounded(x / 2, y / 2);
    }
  }

  /** Bit operations on numbers below a power of two stay below it. */
  lemma {:induction false} BitwiseBelow(op: BitOp, x: int, y: int, k: nat)
    requires 0 <= x < Pow2(k) && 0 <= y < Pow2(k)
    ensures 0 <= Bitwise(op, x, y) < Pow2(k)
    decreases k
  {
    if k > 0 {
      BitwiseBelow(op, x / 2, y / 2, k - 1);
    }
  }

  /** Bit operations on signed numbers of a given width stay in that width. */
  lemma {:induction false} BitwiseSigned(op: BitOp, x: int, y: int, k: nat)
    requires -1 * Pow2(k) <= x < Pow2(k) && -1 * Pow2(k) <= y < Pow2(k)
    ensures -1 * Pow2(k) <= Bitwise(op, x, y) < Pow2(k)
    decreases k
  {
    if k > 0 {
      BitwiseSigned(op, x / 2, y / 2, k - 1);
    }
  }

  lemma {:induction false} Pow2Mono(j: nat, k: nat)
    requires j <= k
    ensures Pow2(j) <= Pow2(k)
    decreases k
  {
    if j < k {
      Pow2Mono(j, k - 1);
    }
  }

  /** Shifting a non-negative number right by `i` tells whether it is below the power `i`. */
  lemma ShiftZero(num: nat, i: nat)
    ensures num / Pow2(i) == 0 <==> num < Pow2(i)
  {
    QuotientLeast(num, Pow2(i), 0);
    QuotientLeast(num, Pow2(i), 1);
  }

  /** `1 << i` on a 32-bit signed number: the last position is the sign. */
  function ShiftedOne(i: nat): int
    requires i <= 31
  {
    if i == 31 then -0x8000_0000 else Pow2(i)
  }

  /** It is the power of two in 32 bits. */
  lemma ShiftedOneInBits(i: nat)
    requires i <= 31
    ensures ShiftedOne(i) == ToS32(Pow2(i))
  {
    Pow30();
    Pow2Mono(i, if i <= 30 then 30 else 31);
  }

  /** Meant to be the smallest power of two, from 2 on, above `num`; it is, below 2^30. From there
      on the power no longer fits the 32-bit result, which turns negative. */
  method NextPowerOf2(num: int) returns (r: int)
    requires 0 <= num < 0x8000_0000
    ensures num < 0x4000_0000 ==>
      exists i: nat :: 1 <= i <= 30 && r == Pow2(i) && num < r && (i == 1 || Pow2(i - 1) <= num)
    ensures num >= 0x4000_0000 ==> r == -0x8000_0000
  {
    var i := 1;
    Pow30();
    while num / Pow2(i) != 0
      invariant 1 <= i <= 31
      invariant i > 1 ==> Pow2(i - 1) <= num
      decreases 31 - i
    {
      ShiftZero(num, i);
      Pow2Mono(i, 31);
      i := i + 1;
    }
    ShiftZero(num, i);
    r := ShiftedOne(i);
    if i < 31 {
      Pow2Mono(i, 30);
    }
  }

  lemma Pow30()
    ensures Pow2(30) == 0x4000_0000 && Pow2(31) == 0x8000_0000
  {
    assert Pow2(10) == 1024;
    Pow2Add(10, 10);
    Pow2Add(20, 10);
  }

  /** Bit operations on 64-bit numbers give 64-bit numbers, so no vector conversion loses bits. */
  lemma SixtyFourBits(op: BitOp, x: int, y: int)
    requires IsS64(x) && IsS64(y)
    ensures IsS64(Bitwise(op, x, y))
  {
    Pow30();
    Pow2Add(31, 31);
    assert Pow2(63) == 0x8000_0000_0000_0000;
    BitwiseSigned(op, x, y, 63);
  }

  /** Bit `k` of the infinite two's-complement form. */
  predicate HasBit(x: int, k: nat)
    decreases k
  {
    if k == 0 then x % 2 == 1 else HasBit(x / 2, k - 1)
  }

  /** What the operations are, bit by bit. */
  lemma {:induction false} BitByBit(x: int, y: int, k: nat)
    ensures HasBit(Bitwise(And, x, y), k) <==> HasBit(x, k) && HasBit(y, k)
    ensures HasBit(Bitwise(Or, x, y), k) <==> HasBit(x, k) || HasBit(y, k)
    ensures HasBit(Bitwise(Xor, x, y), k) <==> HasBit(x, k) != HasBit(y, k)
    decreases k
  {
    hide Bitwise;
    BitwiseStep(And, x, y);
    BitwiseStep(Or, x, y);
    BitwiseStep(Xor, x, y);
    if k > 0 {
      BitByBit(x / 2, y / 2, k - 1);
    }
  }

  /** The recursion goes on through the sign bits. */
  lemma BitwiseStep(op: BitOp, x: int, y: int)
    ensures Bitwise(op, x, y) ==
      2 * Bitwise(op, x / 2, y / 2) + Bit(op.Apply(x % 2 == 1, y % 2 == 1))
  {
  }

  lemma HalveShifted(x: int, a: int, p: nat)
    ensures (x + a * (2 * p)) / 2 == x / 2 + a * p && (x + a * (2 * p)) % 2 == x % 2
  {
    assert a * (2 * p) == 2 * (a * p);
  }

  /** Bits from position `k` on do not reach the bits below it. */
  lemma {:induction false} LowBits(op: BitOp, x: int, y: int, a: int, b: int, k: nat) returns (c: int)
    ensures Bitwise(op, x + a * Pow2(k), y + b * Pow2(k)) == Bitwise(op, x, y) + c * Pow2(k)
    decreases k
  {
    hide Bitwise;
    var p := Pow2(k);
    if k == 0 {
      c := Bitwise(op, x + a * p, y + b * p) - Bitwise(op, x, y);
    } else {
      c := LowBits(op, x / 2, y / 2, a, b, k - 1);
      var q := Pow2(k - 1);
      HalveShifted(x, a, q);
      HalveShifted(y, b, q);
      BitwiseStep(op, x, y);
      BitwiseStep(op, x + a * p, y + b * p);
      assert 2 * (c * q) == c * p;
    }
  }

  /** Truncating the operands to 64 bits truncates the result. */
  lemma TruncatedBits(op: BitOp, x: int, y: int)
    ensures Bitwise(op, ToS64(x), ToS64(y)) == ToS64(Bitwise(op, x, y))
  {
    hide Bitwise;
    SixtyFourBits(op, ToS64(x), ToS64(y));
    Pow64();
    var half, all := 0x8000_0000_0000_0000, 0x1_0000_0000_0000_0000;
    var c := LowBits(op, x, y, -((x + half) / all), -((y + half) / all), 64);
  }

  lemma Pow64()
    ensures Pow2(64) == 0x1_0000_0000_0000_0000
  {
    Pow30();
    Pow2Add(31, 31);
    assert Pow2(64) == 2 * Pow2(63) == 4 * Pow2(62);
  }

  lemma {:induction false} AndSelf(x: int)
    ensures Bitwise(And, x, x) == x
    decreases Magnitude(x)
  {
    if Magnitude(x) != 0 {
      AndSelf(x / 2);
    }
  }

  lemma {:induction false} Pow2Add(a: nat, b: nat)
    ensures Pow2(a + b) == Pow2(a) * Pow2(b)
    decreases b
  {
    if b > 0 {
      Pow2Add(a, b - 1);
    }
  }
}

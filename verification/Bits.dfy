/** Unsigned machine words as natural numbers below a power of two, and the operators
    Rust applies to them: bitwise and, or, xor and not, wrapping arithmetic,
    rotation and `trailing_zeros`. */
module Bits {
  const U32_MODULUS: nat := 0x1_0000_0000
  const U64_MODULUS: nat := 0x1_0000_0000_0000_0000

  type Byte = x: nat | x < 0x100
  type U32 = x: nat | x < U32_MODULUS
  type U64 = x: nat | x < U64_MODULUS

  // ----- Bitwise operators -----

  datatype Op = And | Or | Xor

  function OnBits(op: Op, a: nat, b: nat): (r: nat)
    requires a < 2 && b < 2
    ensures r < 2
  {
    match op
    case And => if a + b == 2 then 1 else 0
    case Or => if a + b == 0 then 0 else 1
    case Xor => if a == b then 0 else 1
  }

  function Bitwise(op: Op, a: nat, b: nat): nat
    decreases a + b
  {
    if a == 0 && b == 0 then 0
    else OnBits(op, a % 2, b % 2) + 2 * Bitwise(op, a / 2, b / 2)
  }

  function Not64(x: U64): U64 { U64_MODULUS - 1 - x }

  /** A multiple of p leaves no remainder, and what is left over below p does. */
  lemma DivModUnique(a: nat, p: nat, q: nat, r: nat)
    requires r < p && a == p * q + r
    ensures a / p == q && a % p == r
  {
    var d := a / p - q;
    Distribute(p, a / p, q);
    ProductFar(p, d);
  }

  lemma Distribute(p: int, x: int, y: int)
    ensures p * (x - y) == p * x - p * y
  {}

  lemma ProductFar(p: int, d: int)
    requires p > 0
    ensures (d > 0 ==> p * d >= p) && (d < 0 ==> p * d <= -p)
  {}

  function Pow2(k: nat): (p: nat)
    ensures p > 0
  {
    if k == 0 then 1 else 2 * Pow2(k - 1)
  }

  lemma BitwiseStep(op: Op, a: nat, b: nat)
    ensures Bitwise(op, a, b) == OnBits(op, a % 2, b % 2) + 2 * Bitwise(op, a / 2, b / 2)
  {
    if a == 0 && b == 0 { assert Bitwise(op, 0, 0) == 0; }
  }

  /** A bitwise operator works on the low k bits and on the rest independently. */
  lemma {:induction false} BitwiseSplit(
    op: Op, k: nat, p: nat, a: nat, lowA: nat, highA: nat, b: nat, lowB: nat, highB: nat)
    requires p == Pow2(k) && lowA < p && lowB < p
    requires a == lowA + p * highA && b == lowB + p * highB
    ensures Bitwise(op, a, b) == Bitwise(op, lowA, lowB) + p * Bitwise(op, highA, highB)
    ensures Bitwise(op, lowA, lowB) < p
    decreases k
  {
    if k == 0 {
      SplitNothing(op, p, a, highA, b, highB);
    } else {
      var h := Pow2(k - 1);
      HalfOfSplit(p, h, a, lowA, highA);
      HalfOfSplit(p, h, b, lowB, highB);
      BitwiseSplit(op, k - 1, h, a / 2, lowA / 2, highA, b / 2, lowB / 2, highB);
      SplitJoins(op, p, h, a, lowA, b, lowB, Bitwise(op, highA, highB));
    }
  }

  lemma {:induction false} SplitNothing(op: Op, p: nat, a: nat, highA: nat, b: nat, highB: nat)
    requires p == 1 && a == p * highA && b == p * highB
    ensures Bitwise(op, a, b) == Bitwise(op, 0, 0) + p * Bitwise(op, highA, highB) && Bitwise(op, 0, 0) == 0
  {}

  /** One bit more below two parts. */
  lemma {:induction false} SplitJoins(op: Op, p: nat, h: nat, a: nat, lowA: nat, b: nat, lowB: nat, high: nat)
    requires p == 2 * h && a % 2 == lowA % 2 && b % 2 == lowB % 2
    requires Bitwise(op, a / 2, b / 2) == Bitwise(op, lowA / 2, lowB / 2) + h * high && Bitwise(op, lowA / 2, lowB / 2) < h
    ensures Bitwise(op, a, b) == Bitwise(op, lowA, lowB) + p * high && Bitwise(op, lowA, lowB) < p
  {
    Doubled(p, h, high);
    BitwiseStep(op, a, b);
    BitwiseStep(op, lowA, lowB);
  }

  /** Halving what lies in two parts halves the low part. */
  lemma HalfOfSplit(p: nat, h: nat, a: nat, low: nat, high: nat)
    requires p == 2 * h && low < p && a == low + p * high
    ensures a % 2 == low % 2 && a / 2 == low / 2 + h * high && low / 2 < h
  {
    Doubled(p, h, high);
  }

  lemma Doubled(p: nat, h: nat, x: nat)
    requires p == 2 * h
    ensures p * x == 2 * (h * x)
  {}

  lemma {:induction false} Pow2Sum(a: nat, b: nat)
    ensures Pow2(a + b) == Pow2(a) * Pow2(b)
  {
    if a > 0 {
      Pow2Sum(a - 1, b);
      Doubled(Pow2(a), Pow2(a - 1), Pow2(b));
    }
  }

  lemma Pow2Values()
    ensures Pow2(7) == 0x80 && Pow2(8) == 0x100
  {
    Pow2Sum(4, 4);
    assert Pow2(4) == 16;
  }

  lemma Pow2Of64()
    ensures Pow2(64) == U64_MODULUS
  {
    var p8, p16, p32, p64 := Pow2(8), Pow2(16), Pow2(32), Pow2(64);
    Pow2Values();
    assert p16 == p8 * p8 by { Pow2Sum(8, 8); }
    assert p32 == p16 * p16 by { Pow2Sum(16, 16); }
    assert p64 == p32 * p32 by { Pow2Sum(32, 32); }
  }

  lemma BitwiseBelow64(op: Op, a: U64, b: U64)
    ensures Bitwise(op, a, b) < U64_MODULUS
  {
    Pow2Of64();
    BitwiseSplit(op, 64, U64_MODULUS, a, a, 0, b, b, 0);
  }

  /** In particular it works on the lowest byte and on the rest independently. */
  lemma BitwiseByte(op: Op, a: nat, b: nat)
    ensures Bitwise(op, a, b) % 256 == Bitwise(op, a % 256, b % 256)
    ensures Bitwise(op, a, b) / 256 == Bitwise(op, a / 256, b / 256)
  {
    Pow2Values();
    BitwiseSplit(op, 8, 256, a, a % 256, a / 256, b, b % 256, b / 256);
    Digits(Bitwise(op, a, b), Bitwise(op, a % 256, b % 256), Bitwise(op, a / 256, b / 256));
  }

  lemma Digits(x: nat, low: Byte, high: nat)
    requires x == low + 256 * high
    ensures x % 256 == low && x / 256 == high
  {}

  /** and on the top bit of a byte and the seven below it. */
  lemma BitwiseTopBit(op: Op, a: Byte, b: Byte)
    ensures Bitwise(op, a, b) >= 0x80 <==> OnBits(op, a / 128, b / 128) == 1
    ensures Bitwise(op, a, b) < 0x100
  {
    Pow2Values();
    BitwiseSplit(op, 7, 128, a, a % 128, a / 128, b, b % 128, b / 128);
    BitwiseStep(op, a / 128, b / 128);
  }

  lemma {:induction false} AndBelow(a: nat, b: nat)
    ensures Bitwise(And, a, b) <= b
    decreases a + b
  {
    if a + b > 0 { AndBelow(a / 2, b / 2); }
  }

  lemma {:induction false} AndMask(k: nat, x: nat)
    requires x < Pow2(k)
    ensures Bitwise(And, x, Pow2(k) - 1) == x
  {
    if k > 0 { AndMask(k - 1, x / 2); }
  }

  // ----- Exclusive or cancels -----

  lemma {:induction false} XorInvolutive(a: nat, b: nat)
    ensures Bitwise(Xor, a, Bitwise(Xor, a, b)) == b
    decreases a + b
  {
    if a + b > 0 {
      var y := Bitwise(Xor, a, b);
      XorInvolutive(a / 2, b / 2);
      BitwiseStep(Xor, a, y);
      assert y / 2 == Bitwise(Xor, a / 2, b / 2);
    }
  }

  lemma XorInjective(a: nat, b: nat, c: nat)
    requires Bitwise(Xor, a, b) == Bitwise(Xor, a, c)
    ensures b == c
  {
    XorInvolutive(a, b);
    XorInvolutive(a, c);
  }

  lemma {:induction false} XorCommutes(a: nat, b: nat)
    ensures Bitwise(Xor, a, b) == Bitwise(Xor, b, a)
    decreases a + b
  {
    if a + b > 0 { XorCommutes(a / 2, b / 2); }
  }

  // ----- Trailing zeros -----

  function TrailingZeros(x: nat): nat
    requires x > 0
  {
    if x % 2 == 1 then 0 else 1 + TrailingZeros(x / 2)
  }

  lemma {:induction false} TrailingZerosShift(x: nat, k: nat, p: nat, y: nat)
    requires x > 0 && p == Pow2(k) && y == p * x
    ensures y > 0 && TrailingZeros(y) == k + TrailingZeros(x)
    decreases k
  {
    if k > 0 {
      Doubled(p, Pow2(k - 1), x);
      TrailingZerosShift(x, k - 1, Pow2(k - 1), y / 2);
    }
  }
}

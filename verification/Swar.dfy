/** Eight bytes in one 64-bit word: the bit tricks of bench/examples/lexing_spike.rs, lane by lane.
    Lane k of a word is its k-th byte, lowest first. */
module Swar {
  import opened Bits

  const ONES: U64 := 0x0101_0101_0101_0101
  const HIGHS: U64 := 0x8080_8080_8080_8080

  // ----- Words and lanes -----

  function Lane(w: nat, k: nat): Byte {
    if k == 0 then w % 256 else Lane(w / 256, k - 1)
  }

  /** The verdict a mask gives about lane k: the lane's top bit. */
  predicate Marked(m: nat, k: nat) { Lane(m, k) >= 0x80 }

  function Pow256(n: nat): nat { if n == 0 then 1 else 256 * Pow256(n - 1) }

  /** The word of n lanes that all hold b. */
  function Fill(n: nat, b: Byte): nat { if n == 0 then 0 else b + 256 * Fill(n - 1, b) }

  function FromLeBytes(b: seq<Byte>): (w: nat)
    ensures w < Pow256(|b|)
  {
    if b == [] then 0 else b[0] + 256 * FromLeBytes(b[1..])
  }

  lemma {:induction false} FromLeBytesLane(b: seq<Byte>, k: nat)
    requires k < |b|
    ensures Lane(FromLeBytes(b), k) == b[k]
  {
    if k > 0 { FromLeBytesLane(b[1..], k - 1); }
  }

  lemma {:induction false} FillLane(n: nat, b: Byte, k: nat)
    requires k < n
    ensures Lane(Fill(n, b), k) == b
  {
    if k > 0 { FillLane(n - 1, b, k - 1); }
  }

  lemma {:induction false} FillTimes(n: nat, b: Byte)
    ensures Fill(n, 1) * b == Fill(n, b)
  {
    if n > 0 { FillTimes(n - 1, b); }
  }

  lemma Constants()
    ensures ONES == Fill(8, 1) && HIGHS == Fill(8, 0x80)
    ensures Fill(8, 0x7f) == Not64(HIGHS) && Fill(8, 0xff) == U64_MODULUS - 1 && Pow256(8) == U64_MODULUS
  {
    assert Fill(8, 1) == ONES;
    FillTimes(8, 0x80);
    FillTimes(8, 0x7f);
    FillTimes(8, 0xff);
  }

  function WrappingSub(a: U64, b: U64): U64 { if a >= b then a - b else a + U64_MODULUS - b }
  function WrappingAdd(a: U64, b: U64): U64 { (a + b) % U64_MODULUS }
  function WrappingMul(a: U64, b: U64): U64 { (a * b) % U64_MODULUS }
  function And64(a: U64, b: U64): U64 { BitwiseBelow64(And, a, b); Bitwise(And, a, b) }
  function Or64(a: U64, b: U64): U64 { BitwiseBelow64(Or, a, b); Bitwise(Or, a, b) }
  function Xor64(a: U64, b: U64): U64 { BitwiseBelow64(Xor, a, b); Bitwise(Xor, a, b) }

  function Bcast(b: Byte): U64 { WrappingMul(ONES, b) }

  lemma BcastIsFill(b: Byte)
    ensures Bcast(b) == Fill(8, b)
  {
    Constants();
    FillTimes(8, b);
  }

  // ----- Lanes of bitwise results -----

  lemma {:induction false} LaneOfBitwise(op: Op, v: nat, w: nat, k: nat)
    ensures Lane(Bitwise(op, v, w), k) == Bitwise(op, Lane(v, k), Lane(w, k))
  {
    BitwiseByte(op, v, w);
    if k > 0 { LaneOfBitwise(op, v / 256, w / 256, k - 1); }
  }

  lemma TopOfOr(a: Byte, b: Byte, c: nat)
    requires c == Bitwise(Or, a, b)
    ensures c >= 0x80 <==> a >= 0x80 || b >= 0x80
  {
    BitwiseTopBit(Or, a, b);
  }

  lemma TopOfAnd(a: Byte, b: Byte, c: nat)
    requires c == Bitwise(And, a, b)
    ensures c >= 0x80 <==> a >= 0x80 && b >= 0x80
  {
    BitwiseTopBit(And, a, b);
  }

  lemma MarkedOr(v: nat, w: nat, k: nat)
    ensures Marked(Bitwise(Or, v, w), k) <==> Marked(v, k) || Marked(w, k)
  {
    LaneOfBitwise(Or, v, w, k);
    TopOfOr(Lane(v, k), Lane(w, k), Lane(Bitwise(Or, v, w), k));
  }

  lemma MarkedAnd(v: nat, w: nat, k: nat)
    ensures Marked(Bitwise(And, v, w), k) <==> Marked(v, k) && Marked(w, k)
  {
    LaneOfBitwise(And, v, w, k);
    TopOfAnd(Lane(v, k), Lane(w, k), Lane(Bitwise(And, v, w), k));
  }

  lemma {:induction false} NotByte(n: nat, w: nat)
    requires n > 0 && w <= Fill(n, 0xff)
    ensures w / 256 <= Fill(n - 1, 0xff)
    ensures (Fill(n, 0xff) - w) % 256 == 0xff - w % 256 && (Fill(n, 0xff) - w) / 256 == Fill(n - 1, 0xff) - w / 256
  {
    FillByte(n, 0xff);
    Digits(Fill(n, 0xff) - w, 0xff - w % 256, Fill(n - 1, 0xff) - w / 256);
  }

  lemma {:induction false} LaneOfNot(n: nat, w: nat, k: nat)
    requires k < n && w <= Fill(n, 0xff)
    ensures Lane(Fill(n, 0xff) - w, k) == 0xff - Lane(w, k)
  {
    NotByte(n, w);
    if k > 0 { LaneOfNot(n - 1, w / 256, k - 1); }
  }

  lemma MarkedNot(w: U64, k: nat)
    requires k < 8
    ensures Marked(Not64(w), k) <==> !Marked(w, k)
  {
    Constants();
    LaneOfNot(8, w, k);
  }

  // ----- Equality masks -----

  function ZeroBytes(x: U64): U64 { And64(And64(WrappingSub(x, ONES), Not64(x)), HIGHS) }
  function SwarEq(w: U64, c: Byte): U64 { ZeroBytes(Xor64(w, Bcast(c))) }

  /** Subtracting one from each of n lanes with a borrow b into the lowest, lane by lane. */
  function MinusOnes(n: nat, x: nat, b: nat): nat
    requires b <= 1
  {
    if n == 0 then 0
    else (x % 256 + 0xff - b) % 256 + 256 * MinusOnes(n - 1, x / 256, BorrowOut(x % 256, b))
  }

  function BorrowOut(lane: Byte, b: nat): nat { if lane < 1 + b then 1 else 0 }

  lemma BorrowStep(lane: Byte, high: nat, b: nat, fill: nat, p: nat, rest: int)
    requires b <= 1
    requires var out := BorrowOut(lane, b); rest == high - fill - out + if high >= fill + out then 0 else p
    ensures var x, f := lane + 256 * high, 1 + 256 * fill;
      (lane + 0xff - b) % 256 + 256 * rest == x - f - b + if x >= f + b then 0 else 256 * p
  {
    assert (lane + 0xff - b) % 256 == if lane < 1 + b then lane + 0xff - b else lane - 1 - b;
  }

  /** Rippling the borrow computes the difference modulo the width. */
  lemma {:induction false} MinusOnesValue(n: nat, x: nat, b: nat)
    requires x < Pow256(n) && b <= 1
    ensures MinusOnes(n, x, b) == x - Fill(n, 1) - b + if x >= Fill(n, 1) + b then 0 else Pow256(n)
  {
    if n > 0 {
      FillBelow(n - 1);
      MinusOnesValue(n - 1, x / 256, BorrowOut(x % 256, b));
      BorrowStep(x % 256, x / 256, b, Fill(n - 1, 1), Pow256(n - 1), MinusOnes(n - 1, x / 256, BorrowOut(x % 256, b)));
    }
  }

  function BorrowInto(x: nat, k: nat, b: nat): (r: nat)
    requires b <= 1
    ensures r <= 1
  {
    if k == 0 then b else BorrowInto(x / 256, k - 1, BorrowOut(x % 256, b))
  }

  lemma {:induction false} BorrowNext(x: nat, k: nat, b: nat)
    requires b <= 1
    ensures BorrowInto(x, k + 1, b) == BorrowOut(Lane(x, k), BorrowInto(x, k, b))
  {
    if k > 0 { BorrowNext(x / 256, k - 1, BorrowOut(x % 256, b)); }
  }

  lemma {:induction false} FillBelow(n: nat)
    ensures Fill(n, 1) < Pow256(n)
  {
    if n > 0 { FillBelow(n - 1); }
  }

  lemma {:induction false} MinusOnesByte(n: nat, x: nat, b: nat)
    requires n > 0 && b <= 1
    ensures MinusOnes(n, x, b) % 256 == (x % 256 + 0xff - b) % 256
    ensures MinusOnes(n, x, b) / 256 == MinusOnes(n - 1, x / 256, BorrowOut(x % 256, b))
  {
    Digits(MinusOnes(n, x, b), (x % 256 + 0xff - b) % 256, MinusOnes(n - 1, x / 256, BorrowOut(x % 256, b)));
  }

  lemma {:induction false} MinusOnesLane(n: nat, x: nat, b: nat, k: nat)
    requires k < n && b <= 1
    ensures Lane(MinusOnes(n, x, b), k) == (Lane(x, k) + 0xff - BorrowInto(x, k, b)) % 256
  {
    MinusOnesByte(n, x, b);
    if k > 0 { MinusOnesLane(n - 1, x / 256, BorrowOut(x % 256, b), k - 1); }
  }

  lemma DifferenceLane(n: nat, ones: nat, p: nat, x: nat, k: nat)
    requires k < n && ones == Fill(n, 1) && p == Pow256(n) && x < p
    ensures var d := if x >= ones then x - ones else x + p - ones;
      d >= 0 && Lane(d, k) == (Lane(x, k) + 0xff - BorrowInto(x, k, 0)) % 256
  {
    FillBelow(n);
    MinusOnesValue(n, x, 0);
    MinusOnesLane(n, x, 0, k);
  }

  lemma SubOnesLane(x: U64, k: nat)
    requires k < 8
    ensures Lane(WrappingSub(x, ONES), k) == (Lane(x, k) + 0xff - BorrowInto(x, k, 0)) % 256
  {
    Constants();
    DifferenceLane(8, ONES, U64_MODULUS, x, k);
  }

  lemma HighsMarked(k: nat)
    requires k < 8
    ensures Marked(HIGHS, k)
  {
    Constants();
    FillLane(8, 0x80, k);
  }

  lemma ZeroMask(d: U64, x: U64, k: nat)
    requires k < 8
    ensures Marked(And64(And64(d, Not64(x)), HIGHS), k) <==> Marked(d, k) && !Marked(x, k)
  {
    MarkedNot(x, k);
    HighsMarked(k);
    MarkedAnd(d, Not64(x), k);
    MarkedAnd(And64(d, Not64(x)), HIGHS, k);
  }

  lemma BorrowShows(lane: Byte, b: nat)
    requires b <= 1
    ensures (lane + 0xff - b) % 256 >= 0x80 && lane < 0x80 <==> lane == 0 || (lane == 1 && b == 1)
  {}

  /** A lane of the zero-byte trick is marked exactly when the subtraction borrows out of it:
      it is zero, or it is one and the lane below borrowed. */
  lemma ZeroBytesLane(x: U64, k: nat)
    requires k < 8
    ensures Marked(ZeroBytes(x), k) <==> Lane(x, k) == 0 || (Lane(x, k) == 1 && BorrowInto(x, k, 0) == 1)
  {
    ZeroMask(WrappingSub(x, ONES), x, k);
    SubOnesLane(x, k);
    BorrowShows(Lane(x, k), BorrowInto(x, k, 0));
  }

  function FlipLowBit(c: Byte): Byte { if c % 2 == 0 then c + 1 else c - 1 }

  lemma XorByte(a: Byte, c: Byte)
    ensures Bitwise(Xor, a, c) == 0 <==> a == c
    ensures Bitwise(Xor, a, c) == 1 <==> a == FlipLowBit(c)
  {
    XorCommutes(a, c);
    XorInvolutive(c, a);
    BitwiseStep(Xor, c, 0);
    BitwiseStep(Xor, c, 1);
    XorZero(c);
    XorZero(c / 2);
  }

  lemma {:induction false} XorZero(c: nat)
    ensures Bitwise(Xor, c, 0) == c
  {
    if c > 0 { XorZero(c / 2); }
  }

  lemma SwarEqLane(w: U64, c: Byte, k: nat)
    requires k < 8
    ensures Marked(SwarEq(w, c), k) <==>
      Lane(w, k) == c || (k > 0 && Lane(w, k) == FlipLowBit(c) && Marked(SwarEq(w, c), k - 1))
  {
    var x := Xor64(w, Bcast(c));
    BcastIsFill(c);
    LaneOfBitwise(Xor, w, Bcast(c), k);
    FillLane(8, c, k);
    XorByte(Lane(w, k), c);
    ZeroBytesLane(x, k);
    if k > 0 {
      ZeroBytesLane(x, k - 1);
      BorrowNext(x, k - 1, 0);
    }
  }

  /** Lane j holds the needle and every lane after it up to k holds the needle with its low bit flipped. */
  ghost predicate SmearedMatch(w: nat, c: Byte, j: nat, k: nat) {
    Lane(w, j) == c && forall i :: j < i <= k ==> Lane(w, i) == FlipLowBit(c)
  }

  /** The exact reading of the mask: lane k is marked when a match at or below it smears up to it. */
  lemma {:induction false} SwarEqExact(w: U64, c: Byte, k: nat)
    requires k < 8
    ensures Marked(SwarEq(w, c), k) <==> exists j :: 0 <= j <= k && SmearedMatch(w, c, j, k)
  {
    SwarEqLane(w, c, k);
    if Lane(w, k) == c {
      assert SmearedMatch(w, c, k, k);
    } else if k > 0 {
      SwarEqExact(w, c, k - 1);
      if Marked(SwarEq(w, c), k) {
        var j :| 0 <= j <= k - 1 && SmearedMatch(w, c, j, k - 1);
        assert SmearedMatch(w, c, j, k);
      }
      if j :| 0 <= j <= k && SmearedMatch(w, c, j, k) {
        assert SmearedMatch(w, c, j, k - 1);
      }
    }
  }

  /** So the mask finds the first match: up to its lowest marked lane it is exact. */
  lemma SwarEqFirst(w: U64, c: Byte, k: nat)
    requires k < 8
    requires forall i :: 0 <= i < k ==> !Marked(SwarEq(w, c), i)
    ensures Marked(SwarEq(w, c), k) <==> Lane(w, k) == c
    ensures forall i :: 0 <= i < k ==> Lane(w, i) != c
  {
    SwarEqLane(w, c, k);
    forall i | 0 <= i < k ensures Lane(w, i) != c {
      SwarEqLane(w, c, i);
    }
  }

  /** The mask is not exact lane by lane: after a space, the exclamation mark is marked as a space too. */
  lemma SwarEqInexact()
    ensures Marked(SwarEq(0x2120, 0x20), 1) && Lane(0x2120, 1) == 0x21
  {
    SwarEqLane(0x2120, 0x20, 0);
    SwarEqLane(0x2120, 0x20, 1);
  }

  // ----- Range masks -----

  function SwarInRangeAscii(w: U64, lo: Byte, hi: Byte): U64
    requires lo < 0x80 && hi < 0x80
  {
    RangeBits(Raised(w, 0x80 - lo), Raised(w, 0x7f - hi), w)
  }

  /** Every lane's low seven bits with b added. */
  function Raised(w: U64, b: Byte): U64 { WrappingAdd(And64(w, Not64(HIGHS)), Bcast(b)) }

  /** The lanes that reached the lower end, did not pass the upper one, and had their high bit clear. */
  function RangeBits(low: U64, high: U64, w: U64): U64 {
    var geLo := And64(low, HIGHS);
    var leHi := And64(Not64(high), HIGHS);
    var highClear := And64(Not64(w), HIGHS);
    And64(And64(geLo, leHi), highClear)
  }

  /** Every lane of x is at most 0x7f. */
  ghost predicate Low7(n: nat, x: nat) {
    if n == 0 then x == 0 else x % 256 <= 0x7f && Low7(n - 1, x / 256)
  }

  lemma {:induction false} ClearedHighs(n: nat, w: nat)
    ensures Low7(n, Bitwise(And, w, Fill(n, 0x7f)))
  {
    if n == 0 {
      AndBelow(w, 0);
    } else {
      FillByte(n, 0x7f);
      BitwiseByte(And, w, Fill(n, 0x7f));
      AndBelow(w % 256, 0x7f);
      ClearedHighs(n - 1, w / 256);
      Low7Step(n, Bitwise(And, w, Fill(n, 0x7f)));
    }
  }

  lemma Low7Step(n: nat, x: nat)
    requires n > 0 && x % 256 <= 0x7f && Low7(n - 1, x / 256)
    ensures Low7(n, x)
  {}

  lemma ClearedLane(w: U64, k: nat)
    requires k < 8
    ensures Lane(And64(w, Not64(HIGHS)), k) == Lane(w, k) % 128
  {
    Constants();
    LaneOfBitwise(And, w, Fill(8, 0x7f), k);
    FillLane(8, 0x7f, k);
    And7f(Lane(w, k));
  }

  lemma And7f(b: Byte)
    ensures Bitwise(And, b, 0x7f) == b % 128
  {
    Pow2Values();
    BitwiseSplit(And, 7, 128, b, b % 128, b / 128, 0x7f, 0x7f, 0);
    AndBelow(b / 128, 0);
    AndMask(7, b % 128);
  }

  /** Adding at most 0x80 to lanes cleared of their high bit never carries into the next lane. */
  lemma {:induction false} AddLane(n: nat, x: nat, b: Byte, k: nat)
    requires k < n && b <= 0x80 && Low7(n, x)
    ensures Lane(x + Fill(n, b), k) == Lane(x, k) + b
  {
    AddByte(n, x, b);
    if k > 0 { AddLane(n - 1, x / 256, b, k - 1); }
  }

  lemma AddByte(n: nat, x: nat, b: Byte)
    requires n > 0 && b <= 0x80 && x % 256 <= 0x7f
    ensures (x + Fill(n, b)) % 256 == x % 256 + b && (x + Fill(n, b)) / 256 == x / 256 + Fill(n - 1, b)
  {
    FillByte(n, b);
    Digits(x + Fill(n, b), x % 256 + b, x / 256 + Fill(n - 1, b));
  }

  lemma {:induction false} AddFits(n: nat, x: nat, b: Byte)
    requires b <= 0x80 && Low7(n, x)
    ensures x + Fill(n, b) <= Fill(n, 0xff)
  {
    if n > 0 { AddFits(n - 1, x / 256, b); }
  }

  lemma SumLane(x: U64, b: Byte, k: nat)
    requires k < 8 && b <= 0x80 && Low7(8, x)
    ensures Lane(WrappingAdd(x, Bcast(b)), k) == Lane(x, k) + b
  {
    Constants();
    BcastIsFill(b);
    AddFits(8, x, b);
    AddsWhole(x, Fill(8, b));
    AddLane(8, x, b, k);
  }

  lemma AddsWhole(a: U64, b: U64)
    requires a + b < 0x1_0000_0000_0000_0000
    ensures WrappingAdd(a, b) == a + b
  {
    assert (a + b) % 0x1_0000_0000_0000_0000 == a + b;
  }

  lemma MarkedHighs(v: U64, k: nat)
    requires k < 8
    ensures Marked(And64(v, HIGHS), k) <==> Marked(v, k)
  {
    HighsMarked(k);
    MarkedAnd(v, HIGHS, k);
  }

  /** A mask marks lane k when its low seven bits reach 0x80 with b added. */
  ghost predicate Reaches(m: U64, w: U64, b: nat, k: nat) { Marked(m, k) <==> Lane(w, k) % 128 + b >= 0x80 }

  lemma RangeSum(w: U64, b: Byte, k: nat)
    requires k < 8 && b <= 0x80
    ensures Reaches(Raised(w, b), w, b, k)
  {
    var x := And64(w, Not64(HIGHS));
    assert Low7(8, x) by { Constants(); ClearedHighs(8, w); }
    ClearedLane(w, k);
    SumLane(x, b, k);
  }

  lemma RangeByte(lane: Byte, lo: Byte, hi: Byte)
    requires lo < 0x80 && hi < 0x80
    ensures lo <= lane <= hi <==>
      lane % 128 + (0x80 - lo) >= 0x80 && !(lane % 128 + (0x7f - hi) >= 0x80) && !(lane >= 0x80)
  {}

  lemma RangeLane(low: U64, high: U64, w: U64, lo: Byte, hi: Byte, k: nat)
    requires k < 8 && lo < 0x80 && hi < 0x80
    requires Reaches(low, w, 0x80 - lo, k) && Reaches(high, w, 0x7f - hi, k)
    ensures Marked(RangeBits(low, high, w), k) <==> lo <= Lane(w, k) <= hi
  {
    RangeMask(low, high, w, k);
    RangeByte(Lane(w, k), lo, hi);
  }

  /** The range mask is exact in every lane of every word. */
  lemma {:induction false} SwarInRangeAsciiExact(w: U64, lo: Byte, hi: Byte, k: nat)
    requires k < 8 && lo < 0x80 && hi < 0x80
    ensures Marked(SwarInRangeAscii(w, lo, hi), k) <==> lo <= Lane(w, k) <= hi
  {
    RangesMeet(w, lo, hi, Raised(w, 0x80 - lo), Raised(w, 0x7f - hi), k);
  }

  lemma {:induction false} RangesMeet(w: U64, lo: Byte, hi: Byte, low: U64, high: U64, k: nat)
    requires k < 8 && lo < 0x80 && hi < 0x80 && low == Raised(w, 0x80 - lo) && high == Raised(w, 0x7f - hi)
    ensures Marked(RangeBits(low, high, w), k) <==> lo <= Lane(w, k) <= hi
  {
    RangeSum(w, 0x80 - lo, k);
    RangeSum(w, 0x7f - hi, k);
    RangeLane(low, high, w, lo, hi, k);
  }

  lemma RangeMask(low: U64, high: U64, w: U64, k: nat)
    requires k < 8
    ensures Marked(RangeBits(low, high, w), k) <==> Marked(low, k) && !Marked(high, k) && !Marked(w, k)
  {
    MarkedHighs(low, k);
    MarkedNot(high, k);
    MarkedHighs(Not64(high), k);
    MarkedNot(w, k);
    MarkedHighs(Not64(w), k);
    MarkedAnd(And64(low, HIGHS), And64(Not64(high), HIGHS), k);
    MarkedAnd(And64(And64(low, HIGHS), And64(Not64(high), HIGHS)), And64(Not64(w), HIGHS), k);
  }

  // ----- The lowest marked lane -----

  /** m has n lanes, each 0x00 or 0x80. */
  ghost predicate IsMask(n: nat, m: nat) {
    if n == 0 then m == 0 else (m % 256 == 0 || m % 256 == 0x80) && IsMask(n - 1, m / 256)
  }

  lemma {:induction false} AndHighsIsMask(n: nat, v: nat)
    ensures IsMask(n, Bitwise(And, v, Fill(n, 0x80)))
  {
    if n == 0 {
      AndBelow(v, 0);
    } else {
      FillByte(n, 0x80);
      BitwiseByte(And, v, Fill(n, 0x80));
      And80(v % 256);
      AndHighsIsMask(n - 1, v / 256);
      MaskStep(n, Bitwise(And, v, Fill(n, 0x80)));
    }
  }

  lemma FillByte(n: nat, b: Byte)
    requires n > 0
    ensures Fill(n, b) % 256 == b && Fill(n, b) / 256 == Fill(n - 1, b)
  {
    Digits(Fill(n, b), b, Fill(n - 1, b));
  }

  lemma MaskStep(n: nat, m: nat)
    requires n > 0 && (m % 256 == 0 || m % 256 == 0x80) && IsMask(n - 1, m / 256)
    ensures IsMask(n, m)
  {}

  lemma And80(b: Byte)
    ensures Bitwise(And, b, 0x80) == 0 || Bitwise(And, b, 0x80) == 0x80
  {
    Pow2Values();
    BitwiseSplit(And, 7, 128, b, b % 128, b / 128, 0x80, 0, 1);
    AndBelow(b % 128, 0);
    AndBelow(b / 128, 1);
  }

  lemma MaskHighs(v: U64)
    ensures IsMask(8, And64(v, HIGHS))
  {
    Constants();
    AndHighsIsMask(8, v);
  }

  lemma SwarEqIsMask(w: U64, c: Byte)
    ensures IsMask(8, SwarEq(w, c))
  {
    var x := Xor64(w, Bcast(c));
    MaskHighs(And64(WrappingSub(x, ONES), Not64(x)));
  }

  /** Counting trailing zeros of a mask and dividing by eight finds its lowest marked lane. */
  /** The lowest lane of a mask that is not empty is the first, or the lowest of the rest. */
  lemma {:induction false} LowestLane(m: nat)
    requires m > 0 && (m % 256 == 0 || m % 256 == 0x80)
    ensures TrailingZeros(m) / 8 == if m % 256 == 0x80 then 0 else 1 + TrailingZeros(m / 256) / 8
  {
    Pow2Values();
    if m % 256 == 0x80 {
      TrailingZerosShift(1 + 2 * (m / 256), 7, 0x80, m);
    } else {
      TrailingZerosShift(m / 256, 8, 0x100, m);
    }
  }

  lemma {:induction false} LowestMarked(n: nat, m: nat)
    requires IsMask(n, m)
    ensures m == 0 ==> forall k :: 0 <= k < n ==> !Marked(m, k)
    ensures m > 0 ==> var k := TrailingZeros(m) / 8;
      k < n && Marked(m, k) && forall j :: 0 <= j < k ==> !Marked(m, j)
  {
    if n > 0 {
      LowestMarked(n - 1, m / 256);
      if m > 0 { LowestLane(m); }
      forall k | 0 <= k < n && (m == 0 || k < TrailingZeros(m) / 8) ensures !Marked(m, k) {
        if k > 0 { assert !Marked(m / 256, k - 1); }
      }
    }
  }

  /** The lane so found is where a needle first stands in a word. */
  lemma FirstInWord(w: U64, needle: Byte)
    ensures var m := SwarEq(w, needle);
      && (m == 0 ==> forall k :: 0 <= k < 8 ==> Lane(w, k) != needle)
      && (m > 0 ==> var k := TrailingZeros(m) / 8;
        k < 8 && Lane(w, k) == needle && forall j :: 0 <= j < k ==> Lane(w, j) != needle)
  {
    var m := SwarEq(w, needle);
    SwarEqIsMask(w, needle);
    LowestMarked(8, m);
    SwarEqFirst(w, needle, if m == 0 then 7 else TrailingZeros(m) / 8);
  }
}

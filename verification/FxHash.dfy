/** The identifier hash of crates/squonk/src/interner/fast_hash.rs and its replica in
    bench/examples/small_throughput.rs. */
module FxHash {
  import opened Bits
  import opened Swar

  const SEED: U64 := 0x517c_c1b7_2722_0a95

  // ----- One word -----

  /** `rotate_left(5)`: the top five bits come round to the bottom. */
  function Rotate5(h: U64): U64 { (h % 0x800_0000_0000_0000) * 32 + h / 0x800_0000_0000_0000 }

  function AddWord(hash: U64, word: U64): U64 { WrappingMul(Xor64(Rotate5(hash), word), SEED) }

  lemma RotateInjective(g: U64, h: U64)
    requires Rotate5(g) == Rotate5(h)
    ensures g == h
  {}

  /** The seed is odd, so a product with it can be undone. */
  const INVERSE: U64 := 0x2040_003d_7809_70bd
  const WRAPS: nat := 739706870995725965

  lemma SeedInverse()
    ensures SEED * INVERSE == 1 + U64_MODULUS * WRAPS
  {}

  /** If d times an odd number is a multiple of m then so is d. */
  lemma Cancels(d: int, seed: int, inverse: int, m: int, wraps: int, t: int)
    requires seed * inverse == 1 + m * wraps && d * seed == m * t
    ensures d == m * (t * inverse - d * wraps)
  {
    assert d * (seed * inverse) == (d * seed) * inverse;
    assert (d * seed) * inverse == (m * t) * inverse == m * (t * inverse);
    assert d * (1 + m * wraps) == d + m * (d * wraps);
    Distribute(m, t * inverse, d * wraps);
  }

  lemma Modulus(x: nat, m: nat) returns (q: nat)
    requires m > 0
    ensures x == m * q + x % m
  {
    q := x / m;
  }

  lemma MulInjective(a: U64, b: U64)
    requires WrappingMul(a, SEED) == WrappingMul(b, SEED)
    ensures a == b
  {
    var p := Modulus(a * SEED, U64_MODULUS);
    var q := Modulus(b * SEED, U64_MODULUS);
    Distribute(SEED, a, b);
    Distribute(U64_MODULUS, p, q);
    SeedInverse();
    Cancels(a - b, SEED, INVERSE, U64_MODULUS, WRAPS, p - q);
    ProductFar(U64_MODULUS, (p - q) * INVERSE - (a - b) * WRAPS);
  }

  /** Each step is injective in the word and in the state. */
  lemma AddWordInjective(g: U64, v: U64, h: U64, w: U64)
    requires AddWord(g, v) == AddWord(h, w)
    ensures g == h <==> v == w
  {
    MulInjective(Xor64(Rotate5(g), v), Xor64(Rotate5(h), w));
    if g == h { XorInjective(Rotate5(g), v, w); }
    if v == w {
      XorCommutes(Rotate5(g), v);
      XorCommutes(Rotate5(h), v);
      XorInjective(v, Rotate5(g), Rotate5(h));
      RotateInjective(g, h);
    }
  }

  // ----- A step by its bits -----

  function Bit(x: nat, k: nat): nat { if k == 0 then x % 2 else Bit(x / 2, k - 1) }

  lemma {:induction false} XorBit(a: nat, b: nat, k: nat)
    ensures Bit(Bitwise(Xor, a, b), k) == (Bit(a, k) + Bit(b, k)) % 2
  {
    BitwiseStep(Xor, a, b);
    BitAbove(OnBits(Xor, a % 2, b % 2), Bitwise(Xor, a / 2, b / 2), k);
    if k > 0 { XorBit(a / 2, b / 2, k - 1); }
  }

  lemma {:induction false} BitAbove(low: nat, high: nat, k: nat)
    requires low < 2
    ensures Bit(low + 2 * high, k) == if k == 0 then low else Bit(high, k - 1)
  {
    assert (low + 2 * high) % 2 == low && (low + 2 * high) / 2 == high;
  }

  /** The bits of a number in two parts. */
  lemma {:induction false} PartsBit(low: nat, high: nat, p: nat, n: nat, k: nat)
    requires p == Pow2(n) && low < p
    ensures Bit(low + p * high, k) == if k < n then Bit(low, k) else Bit(high, k - n)
    decreases n
  {
    if n > 0 {
      var h := Pow2(n - 1);
      HalfOfSplit(p, h, low + p * high, low, high);
      if k > 0 { PartsBit(low / 2, high, h, n - 1, k - 1); }
    }
  }

  lemma TopFive()
    ensures Pow2(5) == 32 && Pow2(59) == 0x800_0000_0000_0000
  {
    Pow2Of64();
    Pow2Sum(59, 5);
  }

  lemma RotateBit(h: U64, k: nat)
    requires k < 64
    ensures Bit(Rotate5(h), k) == Bit(h, (k + 59) % 64)
  {
    RotatedParts(h % 0x800_0000_0000_0000, h / 0x800_0000_0000_0000, k);
  }

  lemma RotatedParts(low: nat, high: nat, k: nat)
    requires low < 0x800_0000_0000_0000 && high < 32 && k < 64
    ensures Bit(low * 32 + high, k) == Bit(0x800_0000_0000_0000 * high + low, (k + 59) % 64)
  {
    TopFive();
    PartsBit(low, high, 0x800_0000_0000_0000, 59, (k + 59) % 64);
    PartsBit(high, low, 32, 5, k);
    assert low * 32 + high == high + 32 * low;
  }

  /** What a step multiplies by the seed has the word's bit wherever the state has a zero five bits below, going
      round at the top, and the other one wherever it has a one. */
  lemma AddWordMixes(hash: U64, word: U64) returns (mixed: U64)
    ensures AddWord(hash, word) == (mixed * 0x51_7c_c1_b7_27_22_0a_95) % 0x1_0000_0000_0000_0000
    ensures forall k :: 0 <= k < 64 ==> Bit(mixed, k) == (Bit(hash, (k + 59) % 64) + Bit(word, k)) % 2
  {
    mixed := Xor64(Rotate5(hash), word);
    forall k | 0 <= k < 64 ensures Bit(mixed, k) == (Bit(hash, (k + 59) % 64) + Bit(word, k)) % 2 {
      RotateBit(hash, k);
      XorBit(Rotate5(hash), word, k);
    }
  }

  // ----- Chunks -----

  /** Eight bytes at a time, then a tail of four, of two and of one. */
  function CutLength(n: nat): (c: nat)
    requires n > 0
    ensures 0 < c <= n && c <= 8
  {
    if n >= 8 then 8 else if n >= 4 then 4 else if n >= 2 then 2 else 1
  }

  function Chunks(bytes: seq<Byte>): seq<seq<Byte>>
    decreases |bytes|
  {
    if bytes == [] then [] else [bytes[..CutLength(|bytes|)]] + Chunks(bytes[CutLength(|bytes|)..])
  }

  function Joined(chunks: seq<seq<Byte>>): seq<Byte> { if chunks == [] then [] else chunks[0] + Joined(chunks[1..]) }

  /** The chunks partition the input. */
  lemma {:induction false} ChunksPartition(bytes: seq<Byte>)
    ensures Joined(Chunks(bytes)) == bytes
    ensures forall i :: 0 <= i < |Chunks(bytes)| ==> 1 <= |Chunks(bytes)[i]| <= 8
    decreases |bytes|
  {
    if bytes != [] {
      var n := CutLength(|bytes|);
      ChunksPartition(bytes[n..]);
      assert bytes == bytes[..n] + bytes[n..];
    }
  }

  /** They are of eight bytes, then at most one of four, one of two and one of one, in this order. */
  lemma {:induction false} ChunksDescend(bytes: seq<Byte>)
    ensures var chunks := Chunks(bytes);
      && (forall i :: 0 <= i < |chunks| ==> |chunks[i]| in [8, 4, 2, 1])
      && forall i :: 0 < i < |chunks| ==> |chunks[i]| < |chunks[i - 1]| || |chunks[i]| == |chunks[i - 1]| == 8
    decreases |bytes|
  {
    if bytes != [] {
      var n := CutLength(|bytes|);
      ChunksDescend(bytes[n..]);
      assert bytes[n..] != [] ==> Chunks(bytes)[1] == Chunks(bytes[n..])[0];
    }
  }

  /** Where they are cut depends on the length alone. */
  lemma {:induction false} SameCuts(a: seq<Byte>, b: seq<Byte>)
    requires |a| == |b|
    ensures |Chunks(a)| == |Chunks(b)| && forall i :: 0 <= i < |Chunks(a)| ==> |Chunks(a)[i]| == |Chunks(b)[i]|
    decreases |a|
  {
    if a != [] {
      SameCuts(a[CutLength(|a|)..], b[CutLength(|a|)..]);
    }
  }

  /** Which end of a chunk the machine reads first. */
  datatype Endian = Little | Big

  function Reversed(s: seq<Byte>): (r: seq<Byte>)
    ensures |r| == |s| && forall i :: 0 <= i < |s| ==> r[i] == s[|s| - 1 - i]
  {
    seq(|s|, i requires 0 <= i < |s| => s[|s| - 1 - i])
  }

  /** `from_ne_bytes`, widened to 64 bits. */
  function Load(endian: Endian, chunk: seq<Byte>): U64
    requires |chunk| <= 8
  {
    Pow256Grows(|chunk|, 8);
    Constants();
    FromLeBytes(if endian == Little then chunk else Reversed(chunk))
  }

  lemma {:induction false} Pow256Grows(m: nat, n: nat)
    requires m <= n
    ensures Pow256(m) <= Pow256(n)
  {
    if m < n { Pow256Grows(m, n - 1); }
  }

  /** A chunk's bytes are the word's lowest, the first of them at the end the machine reads first. */
  lemma LoadLane(endian: Endian, chunk: seq<Byte>, k: nat)
    requires k < |chunk| <= 8
    ensures Lane(Load(endian, chunk), k) == chunk[if endian == Little then k else |chunk| - 1 - k]
    ensures Load(endian, chunk) < Pow256(|chunk|)
  {
    FromLeBytesLane(if endian == Little then chunk else Reversed(chunk), k);
  }

  lemma LoadInjective(endian: Endian, a: seq<Byte>, b: seq<Byte>)
    requires |a| == |b| <= 8 && Load(endian, a) == Load(endian, b)
    ensures a == b
  {
    var x, y := if endian == Little then a else Reversed(a), if endian == Little then b else Reversed(b);
    forall k | 0 <= k < |x| ensures x[k] == y[k] {
      FromLeBytesLane(x, k);
      FromLeBytesLane(y, k);
    }
    forall i | 0 <= i < |a| ensures a[i] == b[i] {
      if endian == Big { assert x[|a| - 1 - i] == y[|a| - 1 - i]; }
    }
  }

  // ----- The hash -----

  ghost predicate Cut(chunks: seq<seq<Byte>>) { forall i :: 0 <= i < |chunks| ==> |chunks[i]| <= 8 }

  /** The state after the chunks, folded in one at a time. */
  function AddAll(endian: Endian, hash: U64, chunks: seq<seq<Byte>>): U64
    requires Cut(chunks)
    decreases |chunks|
  {
    if chunks == [] then hash else AddAll(endian, AddWord(hash, Load(endian, chunks[0])), chunks[1..])
  }

  function Hash(endian: Endian, hash: U64, bytes: seq<Byte>): U64 {
    ChunksPartition(bytes);
    AddAll(endian, hash, Chunks(bytes))
  }

  /** The last byte of an odd input is a word of its own. */
  lemma {:induction false} HashEnds(endian: Endian, hash: U64, bytes: seq<Byte>)
    requires |bytes| == 1
    ensures Hash(endian, hash, bytes) == AddWord(hash, Load(endian, [bytes[0]]))
  {
    HashSteps(endian, hash, bytes, 1);
    assert bytes[..1] == [bytes[0]] && bytes[1..] == [];
  }

  class FxHasher {
    const endian: Endian
    var hash: U64

    constructor (endian: Endian)
      ensures this.endian == endian && hash == 0
    {
      this.endian := endian;
      hash := 0;
    }

    method Write(bytes: seq<Byte>)
      modifies this
      ensures hash == Hash(endian, old(hash), bytes)
    {
      var rest := bytes;
      while |rest| >= 8
        invariant Hash(endian, hash, rest) == Hash(endian, old(hash), bytes)
      {
        HashSteps(endian, hash, rest, 8);
        hash := AddWord(hash, Load(endian, rest[..8]));
        rest := rest[8..];
      }
      if |rest| >= 4 {
        HashSteps(endian, hash, rest, 4);
        hash := AddWord(hash, Load(endian, rest[..4]));
        rest := rest[4..];
      }
      if |rest| >= 2 {
        HashSteps(endian, hash, rest, 2);
        hash := AddWord(hash, Load(endian, rest[..2]));
        rest := rest[2..];
      }
      if |rest| > 0 {
        HashEnds(endian, hash, rest);
        hash := AddWord(hash, Load(endian, [rest[0]]));
      }
    }
  }

  lemma HashSteps(endian: Endian, hash: U64, bytes: seq<Byte>, n: nat)
    requires bytes != [] && n == CutLength(|bytes|)
    ensures Hash(endian, hash, bytes) == Hash(endian, AddWord(hash, Load(endian, bytes[..n])), bytes[n..])
  {
    ChunksPartition(bytes);
  }

  /** The same chunks from different states end in different states. */
  lemma {:induction false} StatesStayApart(endian: Endian, g: U64, h: U64, chunks: seq<seq<Byte>>)
    requires Cut(chunks) && g != h
    ensures AddAll(endian, g, chunks) != AddAll(endian, h, chunks)
    decreases |chunks|
  {
    if chunks != [] {
      var w := Load(endian, chunks[0]);
      if AddWord(g, w) == AddWord(h, w) { AddWordInjective(g, w, h, w); }
      StatesStayApart(endian, AddWord(g, w), AddWord(h, w), chunks[1..]);
    }
  }

  ghost predicate DifferOnlyAt(a: seq<seq<Byte>>, b: seq<seq<Byte>>, k: nat) {
    |a| == |b| && k < |a| && a[k] != b[k] && |a[k]| == |b[k]| && forall i :: 0 <= i < |a| && i != k ==> a[i] == b[i]
  }

  lemma {:induction false} OneChunkApart(endian: Endian, hash: U64, a: seq<seq<Byte>>, b: seq<seq<Byte>>, k: nat)
    requires Cut(a) && Cut(b) && DifferOnlyAt(a, b, k)
    ensures AddAll(endian, hash, a) != AddAll(endian, hash, b)
    decreases |a|
  {
    if k > 0 {
      OneChunkApart(endian, AddWord(hash, Load(endian, a[0])), a[1..], b[1..], k - 1);
    } else {
      var v, w := Load(endian, a[0]), Load(endian, b[0]);
      if v == w { LoadInjective(endian, a[0], b[0]); }
      if AddWord(hash, v) == AddWord(hash, w) { AddWordInjective(hash, v, hash, w); }
      assert a[1..] == b[1..];
      StatesStayApart(endian, AddWord(hash, v), AddWord(hash, w), a[1..]);
    }
  }

  /** Strings of one length that differ inside exactly one chunk never collide, whatever the state before. */
  lemma NoCollision(endian: Endian, hash: U64, a: seq<Byte>, b: seq<Byte>, k: nat)
    requires |a| == |b| && k < |Chunks(a)| && |Chunks(a)| == |Chunks(b)|
    requires Chunks(a)[k] != Chunks(b)[k] && forall i :: 0 <= i < |Chunks(a)| && i != k ==> Chunks(a)[i] == Chunks(b)[i]
    ensures Hash(endian, hash, a) != Hash(endian, hash, b)
  {
    SameCuts(a, b);
    ChunksPartition(a);
    ChunksPartition(b);
    OneChunkApart(endian, hash, Chunks(a), Chunks(b), k);
  }

  /** Hashing a string is injective in the state it starts from. */
  lemma HashInjectiveInState(endian: Endian, g: U64, h: U64, bytes: seq<Byte>)
    ensures Hash(endian, g, bytes) == Hash(endian, h, bytes) <==> g == h
  {
    ChunksPartition(bytes);
    if g != h { StatesStayApart(endian, g, h, Chunks(bytes)); }
  }
}

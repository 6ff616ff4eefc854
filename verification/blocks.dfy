/**
 * The 16-byte blocks of packages/common/src/crypto/ocb2-aes128.ts and the three
 * in-place block operations `xor`, `s2` and `s3`. A buffer byte is a bv8, whose
 * shifts drop the bits that storing into a JavaScript Buffer drops.
 */
module Blocks {
  const BLOCK_SIZE := 16

  type Block = b: seq<bv8> | |b| == BLOCK_SIZE witness seq(16, _ => 0 as bv8)

  function Zero(): Block {
    seq(BLOCK_SIZE, _ => 0)
  }

  type Octet = n: nat | n < 256

  /** The byte that stores the number n, and the number that a byte stores. */
  function ToByte(n: Octet): bv8 {
    if n == 0 then 0 else ToByte(n - 1) + 1
  }

  function ToNumber(b: bv8): nat
    decreases b
  {
    if b == 0 then 0 else ToNumber(b - 1) + 1
  }

  lemma {:induction false} NumberOfByte(n: Octet)
    ensures ToNumber(ToByte(n)) == n && ToByte(n) as int == n
  {
    if n == 0 {
    } else {
      NumberOfByte(n - 1);
      NextByte(ToByte(n - 1));
    }
  }

  lemma {:induction false} ByteOfNumber(b: bv8)
    ensures ToNumber(b) < 256 && ToByte(ToNumber(b)) == b && ToNumber(b) == b as int
    decreases b
  {
    if b == 0 {
    } else {
      ByteOfNumber(b - 1);
      NextByte(b - 1);
    }
  }

  lemma NextByte(b: bv8)
    ensures (b + 1) as int == if b == 255 then 0 else b as int + 1
  {
  }

  function Xor(a: Block, b: Block): Block {
    seq(BLOCK_SIZE, i requires 0 <= i < BLOCK_SIZE => a[i] ^ b[i])
  }

  /** A byte shifted left, taking in the top bit of the byte after it. */
  function Shifted(high: bv8, low: bv8): bv8 {
    (high << 1) | (low >> 7)
  }

  /** The top bit. */
  function Carry(b: bv8): bv8 {
    b >> 7
  }

  /** The last byte shifted left, folding back the bit shifted out of the first as 0x87. */
  function Folded(last: bv8, carry: bv8): bv8 {
    (last << 1) ^ (carry * 0x87)
  }

  function S2(b: Block): Block {
    seq(BLOCK_SIZE, i requires 0 <= i < BLOCK_SIZE =>
      if i < 15 then Shifted(b[i], b[i + 1]) else Folded(b[15], Carry(b[0])))
  }

  function S3(b: Block): Block {
    Xor(b, S2(b))
  }

  lemma XorCancels(a: Block, b: Block)
    ensures Xor(a, Xor(a, b)) == b
    ensures Xor(Xor(b, a), a) == b
    ensures Xor(a, b) == Xor(b, a)
  {
    assert forall i :: 0 <= i < BLOCK_SIZE ==> a[i] ^ (a[i] ^ b[i]) == b[i] && (b[i] ^ a[i]) ^ a[i] == b[i];
  }

  // ----- the operations as the class performs them, in place -----

  /** The block of `dst` at `at` gets the sum of two blocks; an operand may be that very block. */
  method XorInto(dst: array<bv8>, at: nat, a: array<bv8>, aAt: nat, b: array<bv8>, bAt: nat)
    requires at + BLOCK_SIZE <= dst.Length && aAt + BLOCK_SIZE <= a.Length && bAt + BLOCK_SIZE <= b.Length
    requires (a == dst ==> aAt == at) && (b == dst ==> bAt == at)
    modifies dst
    ensures dst[..at] == old(dst[..at]) && dst[at + BLOCK_SIZE..] == old(dst[at + BLOCK_SIZE..])
    ensures dst[at..at + BLOCK_SIZE] == Xor(old(a[aAt..aAt + BLOCK_SIZE]), old(b[bAt..bAt + BLOCK_SIZE]))
  {
    ghost var x: Block, y: Block := a[aAt..aAt + BLOCK_SIZE], b[bAt..bAt + BLOCK_SIZE];
    for i := 0 to BLOCK_SIZE
      invariant forall j :: i <= j < BLOCK_SIZE ==> a[aAt + j] == x[j] && b[bAt + j] == y[j]
      invariant forall j :: 0 <= j < i ==> dst[at + j] == Xor(x, y)[j]
      invariant forall j :: 0 <= j < dst.Length && !(at <= j < at + BLOCK_SIZE) ==> dst[j] == old(dst[j])
    {
      dst[at + i] := a[aAt + i] ^ b[bAt + i];
    }
  }

  method DoubleInPlace(block: array<bv8>)
    requires block.Length == BLOCK_SIZE
    modifies block
    ensures block[..] == S2(old(block[..]))
  {
    var carry := Carry(block[0]);
    ghost var was: Block := block[..];
    for i := 0 to BLOCK_SIZE - 1
      invariant forall j :: 0 <= j < i ==> block[j] == S2(was)[j]
      invariant forall j :: i <= j < BLOCK_SIZE ==> block[j] == was[j]
    {
      block[i] := Shifted(block[i], block[i + 1]);
    }
    block[BLOCK_SIZE - 1] := Folded(block[BLOCK_SIZE - 1], carry);
  }

  method TripleInPlace(block: array<bv8>)
    requires block.Length == BLOCK_SIZE
    modifies block
    ensures block[..] == S3(old(block[..]))
  {
    var carry := Carry(block[0]);
    ghost var was: Block := block[..];
    for i := 0 to BLOCK_SIZE - 1
      invariant forall j :: 0 <= j < i ==> block[j] == TripledByte(was, j)
      invariant forall j :: i <= j < BLOCK_SIZE ==> block[j] == was[j]
    {
      block[i] := block[i] ^ Shifted(block[i], block[i + 1]);
    }
    block[BLOCK_SIZE - 1] := block[BLOCK_SIZE - 1] ^ Folded(block[BLOCK_SIZE - 1], carry);
    S3Bytes(was);
  }

  function TripledByte(b: Block, i: nat): bv8
    requires i < BLOCK_SIZE
  {
    b[i] ^ (if i < 15 then Shifted(b[i], b[i + 1]) else Folded(b[15], Carry(b[0])))
  }

  lemma S3Bytes(b: Block)
    ensures forall i :: 0 <= i < BLOCK_SIZE ==> S3(b)[i] == TripledByte(b, i)
  {
  }

  // ----- the field GF(2^128) -----
  //
  // A field element is a polynomial over GF(2) of degree below 128, given by its
  // coefficients: entry k belongs to x^k.

  type Poly = p: seq<bool> | |p| == 128 witness seq(128, _ => false)

  function Mask(j: nat): bv8
    requires j < 8
  {
    if j == 0 then 1 else if j == 1 then 2 else if j == 2 then 4 else if j == 3 then 8
    else if j == 4 then 0x10 else if j == 5 then 0x20 else if j == 6 then 0x40 else 0x80
  }

  predicate Bit(b: bv8, j: nat)
    requires j < 8
  {
    b & Mask(j) != 0
  }

  /** Bit k of the block read as one 128-bit big-endian number. */
  predicate Coefficient(b: Block, k: nat)
    requires k < 128
  {
    Bit(b[15 - k / 8], k % 8)
  }

  function ToPoly(b: Block): Poly {
    seq(128, k requires 0 <= k < 128 => Coefficient(b, k))
  }

  /** The coefficients of x^128 + x^7 + x^2 + x + 1, the reduction polynomial. */
  predicate InReduction(k: nat) {
    k == 128 || k == 7 || k == 2 || k == 1 || k == 0
  }

  /** The remainder of a polynomial of degree at most 128 modulo the reduction polynomial. */
  function Reduce(q: seq<bool>): Poly
    requires |q| == 129
  {
    seq(128, k requires 0 <= k < 128 => q[k] != (q[128] && InReduction(k)))
  }

  /** The product with x in the field. */
  function TimesX(p: Poly): Poly {
    Reduce([false] + p)
  }

  function Plus(p: Poly, q: Poly): Poly {
    seq(128, k requires 0 <= k < 128 => p[k] != q[k])
  }

  lemma ShiftedBit(high: bv8, low: bv8, j: nat)
    requires j < 8
    ensures Bit(Shifted(high, low), j) == if j == 0 then Bit(low, 7) else Bit(high, j - 1)
  {
  }

  lemma FoldedBit(last: bv8, first: bv8, j: nat)
    requires j < 8
    ensures Bit(Folded(last, Carry(first)), j) == ((j != 0 && Bit(last, j - 1)) != (Bit(first, 7) && InReduction(j)))
  {
  }

  lemma XorBit(a: bv8, b: bv8, j: nat)
    requires j < 8
    ensures Bit(a ^ b, j) == (Bit(a, j) != Bit(b, j))
  {
    var m := Mask(j);
    assert (a ^ b) & m == (a & m) ^ (b & m);
    OneBit(a, j);
    OneBit(b, j);
  }

  lemma OneBit(a: bv8, j: nat)
    requires j < 8
    ensures a & Mask(j) == 0 || a & Mask(j) == Mask(j)
  {
  }

  lemma S2Coefficient(b: Block, k: nat)
    requires k < 128
    ensures Coefficient(S2(b), k) == ((k != 0 && Coefficient(b, k - 1)) != (Coefficient(b, 127) && InReduction(k)))
  {
    if k < 8 {
      FoldedBit(b[15], b[0], k);
    } else {
      MiddleCoefficient(b, k);
    }
  }

  lemma MiddleCoefficient(b: Block, k: nat)
    requires 8 <= k < 128
    ensures Coefficient(S2(b), k) == Coefficient(b, k - 1) && !InReduction(k)
  {
    var i, j := 15 - k / 8, k % 8;
    ShiftedBit(b[i], b[i + 1], j);
    assert S2(b)[i] == Shifted(b[i], b[i + 1]);
    if j == 0 {
      assert 15 - (k - 1) / 8 == i + 1 && (k - 1) % 8 == 7;
    } else {
      assert 15 - (k - 1) / 8 == i && (k - 1) % 8 == j - 1;
    }
  }

  /** `s2` is multiplication by x. */
  lemma S2IsTimesX(b: Block)
    ensures ToPoly(S2(b)) == TimesX(ToPoly(b))
  {
    forall k: nat | k < 128
      ensures ToPoly(S2(b))[k] == TimesX(ToPoly(b))[k]
    {
      S2Coefficient(b, k);
    }
  }

  lemma XorIsPlus(a: Block, b: Block)
    ensures ToPoly(Xor(a, b)) == Plus(ToPoly(a), ToPoly(b))
  {
    forall k: nat | k < 128
      ensures Coefficient(Xor(a, b), k) == (Coefficient(a, k) != Coefficient(b, k))
    {
      XorBit(a[15 - k / 8], b[15 - k / 8], k % 8);
    }
  }

  /** `s3` multiplies by x + 1. */
  lemma S3IsTimesXPlusOne(b: Block)
    ensures ToPoly(S3(b)) == Plus(ToPoly(b), TimesX(ToPoly(b)))
  {
    S2IsTimesX(b);
    XorIsPlus(b, S2(b));
  }

  lemma ByteBits(a: bv8, b: bv8)
    requires forall j :: 0 <= j < 8 ==> Bit(a, j) == Bit(b, j)
    ensures a == b
  {
    assert Bit(a, 0) == Bit(b, 0) && Bit(a, 1) == Bit(b, 1) && Bit(a, 2) == Bit(b, 2) && Bit(a, 3) == Bit(b, 3);
    assert Bit(a, 4) == Bit(b, 4) && Bit(a, 5) == Bit(b, 5) && Bit(a, 6) == Bit(b, 6) && Bit(a, 7) == Bit(b, 7);
  }

  lemma ToPolyInjective(a: Block, b: Block)
    requires ToPoly(a) == ToPoly(b)
    ensures a == b
  {
    forall i | 0 <= i < BLOCK_SIZE
      ensures a[i] == b[i]
    {
      forall j | 0 <= j < 8
        ensures Bit(a[i], j) == Bit(b[i], j)
      {
        var k := 8 * (15 - i) + j;
        assert ToPoly(a)[k] == Coefficient(a, k) && ToPoly(b)[k] == Coefficient(b, k);
      }
      ByteBits(a[i], b[i]);
    }
  }

  lemma TimesXInjective(p: Poly, q: Poly)
    requires TimesX(p) == TimesX(q)
    ensures p == q
  {
    assert TimesX(p)[0] == p[127] && TimesX(q)[0] == q[127];
    forall k | 0 <= k < 127
      ensures p[k] == q[k]
    {
      assert TimesX(p)[k + 1] == (p[k] != (p[127] && InReduction(k + 1)));
      assert TimesX(q)[k + 1] == (q[k] != (q[127] && InReduction(k + 1)));
    }
  }

  /** Two different offsets never meet after a doubling. */
  lemma S2Injective(a: Block, b: Block)
    requires S2(a) == S2(b)
    ensures a == b
  {
    S2IsTimesX(a);
    S2IsTimesX(b);
    TimesXInjective(ToPoly(a), ToPoly(b));
    ToPolyInjective(a, b);
  }
}

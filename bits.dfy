/**
 * Unsigned 64-bit words as numbers, powers of two and bit lengths, and the
 * arithmetic behind the two rejection samplers of xorshift64.h:
 *
 *  - get_uint64z divides a draw by 2^r, where r is counted down from 64 while
 *    halving n - 1; this is done on the numeric value of the words;
 *  - get_uint64x masks a draw with the bits of n - 1 smeared downwards; this is
 *    done on `bv64`, with each fact about the smear stated and proved on the
 *    expanded expression and then transferred to `Mask`.
 */
module Bits {

  /** 2^64: one more than the largest 64-bit word. */
  const MOD: nat := 0x1_0000_0000_0000_0000

  /** The numeric value of an unsigned 64-bit word. */
  type Word = x: nat | x < MOD

  // ---------------------------------------------------------------------
  // Powers of two and bit lengths
  // ---------------------------------------------------------------------

  function Pow2(k: nat): (p: nat)
    ensures p >= 1
  {
    if k == 0 then 1 else 2 * Pow2(k - 1)
  }

  lemma {:induction false} Pow2Add(a: nat, b: nat)
    ensures Pow2(a + b) == Pow2(a) * Pow2(b)
  {
    if a > 0 {
      Pow2Add(a - 1, b);
    }
  }

  lemma {:induction false} Pow2Monotone(a: nat, b: nat)
    ensures a <= b ==> Pow2(a) <= Pow2(b)
  {
    if a < b {
      Pow2Monotone(a, b - 1);
    }
  }

  lemma Pow2Byte()
    ensures Pow2(8) == 0x100
  {
    assert Pow2(2) == 4;
    Pow2Add(2, 2);
    Pow2Add(4, 4);
  }

  lemma Pow2Sixteen()
    ensures Pow2(16) == 0x1_0000
  {
    Pow2Byte();
    Pow2Add(8, 8);
  }

  lemma Pow2ThirtyTwo()
    ensures Pow2(32) == 0x1_0000_0000
  {
    Pow2Sixteen();
    Pow2Add(16, 16);
  }

  /** 2^64 is the modulus of the word arithmetic. */
  lemma Pow2Word()
    ensures Pow2(64) == MOD
  {
    Pow2ThirtyTwo();
    Pow2Add(32, 32);
  }

  /** Number of significant bits of x: how many halvings bring it to 0. */
  function BitLength(x: nat): nat
  {
    if x == 0 then 0 else 1 + BitLength(x / 2)
  }

  /** x lies in [2^(b-1), 2^b) for its bit length b. */
  lemma {:induction false} BitLengthBounds(x: nat)
    ensures x < Pow2(BitLength(x))
    ensures x > 0 ==> Pow2(BitLength(x) - 1) <= x
  {
    if x > 0 {
      BitLengthBounds(x / 2);
    }
  }

  /** A word has at most 64 significant bits. */
  lemma WordBitLength(x: Word)
    ensures BitLength(x) <= 64
  {
    BitLengthBounds(x);
    if BitLength(x) > 64 {
      Pow2Monotone(64, BitLength(x) - 1);
      Pow2Word();
    }
  }

  lemma MulMonotone(b: int, c: int, a: nat)
    ensures b <= c ==> b * a <= c * a
  {
  }

  /** Division by a is exact on a product with a. */
  lemma DivUnique(x: nat, a: nat, q: nat)
    requires a > 0 && q * a <= x < q * a + a
    ensures x / a == q
  {
    var d := x / a;
    assert d * a + x % a == x;
    MulMonotone(d, q - 1, a);
    MulMonotone(q + 1, d, a);
  }

  lemma DivNotLarger(x: nat, a: nat)
    requires a >= 1
    ensures 0 <= x / a <= x
  {
    var q := x / a;
    assert q * a + x % a == x;
    MulMonotone(1, a, q);
  }

  lemma DivBelow(x: nat, a: nat, b: nat)
    requires a > 0 && x < a * b
    ensures x / a < b
  {
  }

  // ---------------------------------------------------------------------
  // get_uint64z: the shift count and the shifted draw
  // ---------------------------------------------------------------------

  /** The 64-bit value of n - 1, wrapping 0 to 2^64 - 1. */
  function Pred(n: Word): Word
  {
    if n == 0 then MOD - 1 else n - 1
  }

  /** `x >> s` on a 64-bit word for 0 <= s <= 64 (s == 64 gives 0). */
  function ShiftDown(x: Word, s: nat): Word
  {
    DivNotLarger(x, Pow2(s));
    x / Pow2(s)
  }

  /**
   * The shift get_uint64z computes: 64, less one for every halving of n - 1,
   * after the first, that leaves a non-zero value.
   */
  function ShiftAsWritten(n: Word): nat
  {
    WordBitLength(Pred(n) / 2);
    64 - BitLength(Pred(n) / 2)
  }

  /** The shift that keeps exactly BitLength(n - 1) high bits of a draw. */
  function ShiftCorrected(n: Word): nat
  {
    WordBitLength(Pred(n));
    64 - BitLength(Pred(n))
  }

  /**
   * The computed shift is 65 - bitlength(n - 1) when n - 1 >= 1, and 64 when
   * n - 1 <= 1, so it is one more than the corrected shift once n >= 2.
   */
  lemma ShiftAsWrittenValue(n: Word)
    ensures 1 <= ShiftAsWritten(n) <= 64
    ensures Pred(n) <= 1 ==> ShiftAsWritten(n) == 64
    ensures Pred(n) >= 1 ==> ShiftAsWritten(n) == 65 - BitLength(Pred(n))
    ensures Pred(n) >= 1 ==> ShiftAsWritten(n) == ShiftCorrected(n) + 1
  {
    WordBitLength(Pred(n));
    assert BitLength(1) == 1;
  }

  /** For n >= 3, a draw shifted as written is always below n - 1. */
  lemma ShiftAsWrittenMissesTop(n: Word, x: Word)
    requires n >= 3
    ensures ShiftDown(x, ShiftAsWritten(n)) < n - 1
  {
    var p := Pred(n);
    var k := BitLength(p);
    ShiftAsWrittenValue(n);
    var s := ShiftAsWritten(n);
    assert k >= 1;
    BitLengthBounds(p);
    Pow2Add(s, k - 1);
    Pow2Word();
    DivBelow(x, Pow2(s), Pow2(k - 1));
  }

  /** For n <= 2 the shift is the whole word (undefined in C++) and every draw becomes 0. */
  lemma ShiftAsWrittenSmall(n: Word, x: Word)
    requires 1 <= n <= 2
    ensures ShiftDown(x, ShiftAsWritten(n)) == 0
  {
    ShiftAsWrittenValue(n);
    Pow2Word();
    DivBelow(x, MOD, 1);
  }

  /** With the corrected shift a draw lands in [0, 2^bitlength(n - 1)): the values the mask of get_uint64x keeps. */
  lemma ShiftCorrectedRange(n: Word, x: Word)
    ensures ShiftDown(x, ShiftCorrected(n)) < Pow2(BitLength(Pred(n)))
  {
    var k := BitLength(Pred(n));
    WordBitLength(Pred(n));
    Pow2Add(ShiftCorrected(n), k);
    Pow2Word();
    DivBelow(x, Pow2(ShiftCorrected(n)), Pow2(k));
  }

  /** With the corrected shift, every value below n is what some draw shifts down to. */
  lemma ShiftCorrectedReachesAll(n: Word, v: nat)
    requires v < n
    ensures v * Pow2(ShiftCorrected(n)) < MOD
    ensures ShiftDown(v * Pow2(ShiftCorrected(n)), ShiftCorrected(n)) == v
  {
    var k := BitLength(Pred(n));
    var a := Pow2(ShiftCorrected(n));
    var b := Pow2(k);
    BitLengthBounds(Pred(n));
    assert v + 1 <= b;
    WordBitLength(Pred(n));
    Pow2Add(ShiftCorrected(n), k);
    Pow2Word();
    assert a * b == MOD;
    MulMonotone(v + 1, b, a);
    MulMonotone(0, v, a);
    assert b * a == a * b;
    assert (v + 1) * a == v * a + a;
    assert v * a < MOD;
    DivUnique(v * a, a, v);
  }

  // ---------------------------------------------------------------------
  // get_uint64x: the mask
  // ---------------------------------------------------------------------

  /** `x` with every bit below its highest set bit also set, by the six or-shift steps of get_uint64x. */
  function Smear(x: bv64): bv64
  {
    var v1 := x | (x >> 1);
    var v2 := v1 | (v1 >> 2);
    var v3 := v2 | (v2 >> 4);
    var v4 := v3 | (v3 >> 8);
    var v5 := v4 | (v4 >> 16);
    v5 | (v5 >> 32)
  }

  /** The mask get_uint64x applies to each draw for the bound n. */
  function Mask(n: bv64): bv64
  {
    Smear(n - 1)
  }

  lemma SmearOnesExpanded(x: bv64)
    ensures var v1 := x | (x >> 1); var v2 := v1 | (v1 >> 2); var v3 := v2 | (v2 >> 4);
      var v4 := v3 | (v3 >> 8); var v5 := v4 | (v4 >> 16); var v := v5 | (v5 >> 32);
      v & (v + 1) == 0
  {
  }

  lemma SmearCoversExpanded(x: bv64)
    ensures var v1 := x | (x >> 1); var v2 := v1 | (v1 >> 2); var v3 := v2 | (v2 >> 4);
      var v4 := v3 | (v3 >> 8); var v5 := v4 | (v4 >> 16); var v := v5 | (v5 >> 32);
      x <= v
  {
  }

  lemma SmearLeastExpanded(x: bv64, m: bv64)
    ensures var v1 := x | (x >> 1); var v2 := v1 | (v1 >> 2); var v3 := v2 | (v2 >> 4);
      var v4 := v3 | (v3 >> 8); var v5 := v4 | (v4 >> 16); var v := v5 | (v5 >> 32);
      m & (m + 1) == 0 && x <= m ==> v <= m
  {
  }

  lemma SmearKeepsExpanded(n: bv64, y: bv64)
    ensures var x := n - 1; var v1 := x | (x >> 1); var v2 := v1 | (v1 >> 2); var v3 := v2 | (v2 >> 4);
      var v4 := v3 | (v3 >> 8); var v5 := v4 | (v4 >> 16); var v := v5 | (v5 >> 32);
      y < n ==> y & v == y
  {
  }

  /** The mask has the form 2^k - 1. */
  lemma MaskOnes(n: bv64)
    ensures Mask(n) & (Mask(n) + 1) == 0
  {
    SmearOnesExpanded(n - 1);
  }

  /** The mask is at least n - 1. */
  lemma MaskCovers(n: bv64)
    ensures n - 1 <= Mask(n)
  {
    SmearCoversExpanded(n - 1);
  }

  /** The mask is at most every word of the form 2^k - 1 that is at least n - 1. */
  lemma MaskLeast(n: bv64, m: bv64)
    ensures m & (m + 1) == 0 && n - 1 <= m ==> Mask(n) <= m
  {
    SmearLeastExpanded(n - 1, m);
  }

  /** Every value below n survives the mask, so a draw equal to it is returned unchanged. */
  lemma MaskKeepsSmaller(n: bv64, y: bv64)
    ensures y < n ==> y & Mask(n) == y
  {
    SmearKeepsExpanded(n, y);
  }
}

/**
 * The 64-bit xorshift + Weyl generator of xorshift64.h and its 32-bit seed mixer.
 *
 * The generator keeps two 64-bit words: `u`, updated by Marsaglia's xorshift
 * (J. Stat. Softw. 8(14), 2003) with the shift triple 5, 15, 27, and `w`, a Weyl
 * sequence advanced by a fixed odd constant. Each draw returns
 * `u + (w ^ (w >> 27))`, all arithmetic modulo 2^64.
 *
 * Both words are `bv64`, so every addition wraps modulo 2^64 as uint64_t does.
 */
module Xorshift {
  import opened Bits

  /** Additive constant of the Weyl sequence. */
  const WEYL: bv64 := 0x61C8_8646_80B5_83EB
  /** Replacement for a zero first seed: the xorshift word must never be zero. */
  const DEFAULT_U: bv64 := 15191868757011070976
  /** Number of draws thrown away by `seed`. */
  const BURN_IN: nat := 256

  datatype State = State(u: bv64, w: bv64)

  // ---------------------------------------------------------------------
  // The xorshift word: three shift-xor steps, each with a closed-form inverse
  // ---------------------------------------------------------------------

  function ShiftLeft5(x: bv64): bv64 { x ^ (x << 5) }
  function ShiftRight15(x: bv64): bv64 { x ^ (x >> 15) }
  function ShiftLeft27(x: bv64): bv64 { x ^ (x << 27) }

  /** The update of `u` in get_raw: u ^= u << 5; u ^= u >> 15; u ^= u << 27. */
  function XorshiftStep(u: bv64): bv64
  {
    ShiftLeft27(ShiftRight15(ShiftLeft5(u)))
  }

  /** Inverse of ShiftLeft5: xor in the shifts by 5, 10, 20 and 40 in turn. */
  function UndoLeft5(y: bv64): bv64
  {
    var t1 := y ^ (y << 5);
    var t2 := t1 ^ (t1 << 10);
    var t3 := t2 ^ (t2 << 20);
    t3 ^ (t3 << 40)
  }

  /** Inverse of ShiftRight15. */
  function UndoRight15(y: bv64): bv64
  {
    var t1 := y ^ (y >> 15);
    var t2 := t1 ^ (t1 >> 30);
    t2 ^ (t2 >> 60)
  }

  /** Inverse of ShiftLeft27. */
  function UndoLeft27(y: bv64): bv64
  {
    var t1 := y ^ (y << 27);
    t1 ^ (t1 << 54)
  }

  lemma UndoLeft5Expanded(x: bv64)
    ensures UndoLeft5(x ^ (x << 5)) == x
  {
  }

  lemma UndoRight15Expanded(x: bv64)
    ensures UndoRight15(x ^ (x >> 15)) == x
  {
  }

  lemma UndoLeft27Expanded(x: bv64)
    ensures UndoLeft27(x ^ (x << 27)) == x
  {
  }

  lemma UndoLeft5Inverse(x: bv64)
    ensures UndoLeft5(ShiftLeft5(x)) == x
  {
    UndoLeft5Expanded(x);
  }

  lemma UndoRight15Inverse(x: bv64)
    ensures UndoRight15(ShiftRight15(x)) == x
  {
    UndoRight15Expanded(x);
  }

  lemma UndoLeft27Inverse(x: bv64)
    ensures UndoLeft27(ShiftLeft27(x)) == x
  {
    UndoLeft27Expanded(x);
  }

  /** Runs the three steps of XorshiftStep backwards. */
  function UndoXorshiftStep(y: bv64): bv64
  {
    UndoLeft5(UndoRight15(UndoLeft27(y)))
  }

  /** Each step is invertible, so the xorshift update is a bijection on 64-bit words. */
  lemma XorshiftStepInverse(u: bv64)
    ensures UndoXorshiftStep(XorshiftStep(u)) == u
  {
    UndoLeft27Inverse(ShiftRight15(ShiftLeft5(u)));
    UndoRight15Inverse(ShiftLeft5(u));
    UndoLeft5Inverse(u);
  }

  lemma XorshiftStepInjective(u1: bv64, u2: bv64)
    ensures XorshiftStep(u1) == XorshiftStep(u2) ==> u1 == u2
  {
    XorshiftStepInverse(u1);
    XorshiftStepInverse(u2);
  }

  lemma XorshiftStepZero()
    ensures XorshiftStep(0) == 0
  {
    assert ShiftLeft5(0) == 0;
    assert ShiftRight15(0) == 0;
    assert ShiftLeft27(0) == 0;
  }

  /** Zero is a fixed point, so by injectivity a non-zero word stays non-zero. */
  lemma XorshiftStepNonZero(u: bv64)
    requires u != 0
    ensures XorshiftStep(u) != 0
  {
    XorshiftStepZero();
    XorshiftStepInjective(u, 0);
  }

  // ---------------------------------------------------------------------
  // Whole-state transitions
  // ---------------------------------------------------------------------

  /** The Weyl word after one more addition of the constant, wrapping at 2^64. */
  function WeylNext(w: bv64): bv64
  {
    w + WEYL
  }

  /** The state after one get_raw. */
  function Next(s: State): State
  {
    State(XorshiftStep(s.u), WeylNext(s.w))
  }

  /** What get_raw returns, computed from the already updated words. */
  function Output(t: State): bv64
  {
    t.u + (t.w ^ (t.w >> 27))
  }

  /** The value get_raw returns when called in state `s`. */
  function Raw(s: State): bv64
  {
    Output(Next(s))
  }

  /** The state after `n` draws. */
  function Advance(s: State, n: nat): State
  {
    if n == 0 then s else Next(Advance(s, n - 1))
  }

  /** The state `seed` starts from before its burn-in. */
  function Initial(seed1: bv64, seed2: bv64): State
  {
    State(if seed1 == 0 then DEFAULT_U else seed1, if seed2 == 0 then WEYL else seed2)
  }

  /** The state after `seed(seed1, seed2)`. */
  function Seeded(seed1: bv64, seed2: bv64): State
  {
    Advance(Initial(seed1, seed2), BURN_IN)
  }

  /** The initial xorshift word is never zero: a zero seed is replaced. */
  lemma InitialNonZero(seed1: bv64, seed2: bv64)
    ensures Initial(seed1, seed2).u != 0
    ensures seed1 != 0 ==> Initial(seed1, seed2).u == seed1
    ensures seed2 != 0 ==> Initial(seed1, seed2).w == seed2
  {
  }

  lemma {:induction false} AdvanceKeepsNonZero(s: State, n: nat)
    requires s.u != 0
    ensures Advance(s, n).u != 0
  {
    if n > 0 {
      AdvanceKeepsNonZero(s, n - 1);
      XorshiftStepNonZero(Advance(s, n - 1).u);
    }
  }

  /** After seeding, the xorshift word is non-zero whatever the seeds. */
  lemma SeededNonZero(seed1: bv64, seed2: bv64)
    ensures Seeded(seed1, seed2).u != 0
  {
    AdvanceKeepsNonZero(Initial(seed1, seed2), BURN_IN);
  }

  // ---------------------------------------------------------------------
  // Splitting a draw into 32-bit halves
  // ---------------------------------------------------------------------

  /** The high 32 bits of a word. */
  function High(x: bv64): bv32 { (x >> 32) as bv32 }

  /** The low 32 bits of a word (the truncating cast to uint32_t). */
  function Low(x: bv64): bv32 { (x & 0xFFFF_FFFF) as bv32 }

  /** high * 2^32 + low. */
  function Join(high: bv32, low: bv32): bv64 { ((high as bv64) << 32) | (low as bv64) }

  lemma JoinHighLow(x: bv64)
    ensures Join(High(x), Low(x)) == x
  {
  }

  lemma HighLowJoin(high: bv32, low: bv32)
    ensures High(Join(high, low)) == high && Low(Join(high, low)) == low
  {
  }

  // ---------------------------------------------------------------------
  // One draw of the bounded-integer helpers
  // ---------------------------------------------------------------------

  /** The numeric value of a word. */
  function AsWord(x: bv64): Word
  {
    x as nat
  }

  /** The value get_uint64x tests after drawing from state s, with the mask v. */
  function MaskedDraw(s: State, v: bv64): bv64
  {
    Raw(s) & v
  }

  /** get_uint64x keeps the draw from state s: the masked value is below n as an unsigned number. */
  predicate MaskedAccepts(s: State, v: bv64, n: bv64)
  {
    AsWord(MaskedDraw(s, v)) < AsWord(n)
  }

  /** A draw that is already below n passes the mask of get_uint64x unchanged. */
  lemma MaskedDrawSmall(s: State, n: bv64)
    ensures Raw(s) < n ==> MaskedDraw(s, Mask(n)) == Raw(s)
  {
    MaskKeepsSmaller(n, Raw(s));
  }

  /** The value get_uint64z tests after drawing from state s with the given shift. */
  function ShiftedDraw(s: State, shift: nat): Word
  {
    ShiftDown(AsWord(Raw(s)), shift)
  }

  /** get_uint64z keeps the draw from state s. */
  predicate ShiftedAccepts(s: State, n: Word, shift: nat)
  {
    ShiftedDraw(s, shift) < n
  }

  /** As written, get_uint64z never keeps a draw equal to n - 1 once n >= 3. */
  lemma ShiftedAsWrittenMissesTop(s: State, n: Word)
    requires n >= 3
    ensures ShiftedDraw(s, ShiftAsWritten(n)) != n - 1
  {
    ShiftAsWrittenMissesTop(n, AsWord(Raw(s)));
  }

  /** With the corrected shift, a draw whose top bits spell v < n is kept and returns v. */
  lemma ShiftedCorrectedReaches(s: State, n: Word, v: nat)
    requires v < n
    requires AsWord(Raw(s)) == v * Pow2(ShiftCorrected(n))
    ensures ShiftedDraw(s, ShiftCorrected(n)) == v
    ensures ShiftedAccepts(s, n, ShiftCorrected(n))
  {
    ShiftCorrectedReachesAll(n, v);
  }

  // ---------------------------------------------------------------------
  // The generator object
  // ---------------------------------------------------------------------

  class Xorshift64 {
    var u: bv64
    var w: bv64

    /** The pair returned by get_state. */
    function GetState(): State
      reads this
    {
      State(u, w)
    }

    constructor (seed1: bv64, seed2: bv64)
      ensures GetState() == Seeded(seed1, seed2)
      ensures u != 0
    {
      u, w := 0, 0;
      new;
      Seed(seed1, seed2);
    }

    /** seed: substitute zero seeds, then throw away BURN_IN draws. */
    method Seed(seed1: bv64, seed2: bv64)
      modifies this
      ensures GetState() == Seeded(seed1, seed2)
      ensures u != 0
    {
      u := if seed1 == 0 then DEFAULT_U else seed1;
      w := if seed2 == 0 then WEYL else seed2;
      var i := 0;
      while i < BURN_IN
        invariant 0 <= i <= BURN_IN
        invariant GetState() == Advance(Initial(seed1, seed2), i)
      {
        var discarded := GetRaw();
        i := i + 1;
      }
      SeededNonZero(seed1, seed2);
    }

    method GetRaw() returns (r: bv64)
      modifies this
      ensures GetState() == Next(old(GetState()))
      ensures r == Raw(old(GetState()))
      ensures w == old(w) + WEYL
      ensures old(u) != 0 ==> u != 0
    {
      u := XorshiftStep(u);
      w := WeylNext(w);
      r := Output(GetState());
      if old(u) != 0 {
        XorshiftStepNonZero(old(u));
      }
    }

    method GetUint64() returns (r: bv64)
      modifies this
      ensures GetState() == Next(old(GetState()))
      ensures r == Raw(old(GetState()))
    {
      r := GetRaw();
    }

    /** The high half of one draw. */
    method GetUint32() returns (r: bv32)
      modifies this
      ensures GetState() == Next(old(GetState()))
      ensures r == High(Raw(old(GetState())))
    {
      var x := GetRaw();
      r := High(x);
    }

    /** Both halves of one draw, high half first. */
    method GetUint32Pair() returns (high: bv32, low: bv32)
      modifies this
      ensures GetState() == Next(old(GetState()))
      ensures Join(high, low) == Raw(old(GetState()))
    {
      var x := GetRaw();
      high, low := High(x), Low(x);
      JoinHighLow(x);
    }

    /** One draw reduced modulo n; n == 0 is a division by zero in the source. */
    method GetUint64Mod(n: Word) returns (r: Word)
      requires n > 0
      modifies this
      ensures GetState() == Next(old(GetState()))
      ensures r == AsWord(Raw(old(GetState()))) % n
      ensures r < n
    {
      var x := GetUint64();
      r := AsWord(x) % n;
    }

    /** One pass of the do/while body of get_uint64x: draw, mask with v, compare with n. */
    method DrawMasked(n: bv64, v: bv64) returns (r: bv64, accepted: bool)
      modifies this
      ensures GetState() == Next(old(GetState()))
      ensures r == MaskedDraw(old(GetState()), v)
      ensures accepted == MaskedAccepts(old(GetState()), v, n)
      ensures accepted ==> AsWord(r) < AsWord(n)
    {
      ghost var before := GetState();
      var x := GetUint64();
      assert x == Raw(before);
      r := x & v;
      accepted := AsWord(r) < AsWord(n);
    }

    /** Draw and mask with v until a masked draw is below n, at most `fuel` times. */
    method SampleMasked(n: bv64, v: bv64, fuel: nat) returns (found: bool, r: bv64, draws: nat)
      modifies this
      ensures draws <= fuel
      ensures GetState() == Advance(old(GetState()), draws)
      ensures found ==> draws >= 1 && r == MaskedDraw(Advance(old(GetState()), draws - 1), v)
      ensures found ==> AsWord(r) < AsWord(n)
      ensures !found ==> draws == fuel
      ensures forall j :: 0 <= j < draws && (j < draws - 1 || !found) ==> !MaskedAccepts(Advance(old(GetState()), j), v, n)
    {
      found, r, draws := false, 0, 0;
      ghost var start := GetState();
      while draws < fuel
        invariant draws <= fuel
        invariant GetState() == Advance(start, draws)
        invariant forall j :: 0 <= j < draws ==> !MaskedAccepts(Advance(start, j), v, n)
      {
        var x, accepted := DrawMasked(n, v);
        draws := draws + 1;
        if accepted {
          found, r := true, x;
          return;
        }
      }
    }

    /**
     * get_uint64x: smear n - 1 into a mask, then draw until a masked draw is below n.
     * The source loops until a draw is kept (for ever when n == 0); here at most
     * `fuel` draws are made, `draws` counts them and `found` says whether one was kept.
     */
    method GetUint64x(n: bv64, fuel: nat) returns (found: bool, r: bv64, draws: nat)
      modifies this
      ensures draws <= fuel
      ensures GetState() == Advance(old(GetState()), draws)
      ensures found ==> draws >= 1 && r == MaskedDraw(Advance(old(GetState()), draws - 1), Mask(n))
      ensures found ==> AsWord(r) < AsWord(n)
      ensures !found ==> draws == fuel
      ensures forall j :: 0 <= j < draws && (j < draws - 1 || !found) ==> !MaskedAccepts(Advance(old(GetState()), j), Mask(n), n)
    {
      var v := Mask(n);
      found, r, draws := SampleMasked(n, v, fuel);
    }

    /** One pass of the do/while body of get_uint64z: draw, shift, compare. */
    method DrawShifted(n: Word, shift: nat) returns (r: Word, accepted: bool)
      modifies this
      ensures GetState() == Next(old(GetState()))
      ensures r == ShiftedDraw(old(GetState()), shift)
      ensures accepted == ShiftedAccepts(old(GetState()), n, shift)
    {
      ghost var before := GetState();
      var x := GetUint64();
      assert x == Raw(before);
      r := ShiftDown(AsWord(x), shift);
      accepted := r < n;
    }

    /** Draw with a fixed shift until a shifted draw is below n, at most `fuel` times. */
    method SampleShifted(n: Word, shift: nat, fuel: nat) returns (found: bool, r: Word, draws: nat)
      modifies this
      ensures draws <= fuel
      ensures GetState() == Advance(old(GetState()), draws)
      ensures found ==> draws >= 1 && r == ShiftedDraw(Advance(old(GetState()), draws - 1), shift)
      ensures found ==> r < n
      ensures !found ==> draws == fuel
      ensures forall j :: 0 <= j < draws && (j < draws - 1 || !found) ==> !ShiftedAccepts(Advance(old(GetState()), j), n, shift)
    {
      found, r, draws := false, 0, 0;
      while draws < fuel
        invariant draws <= fuel
        invariant GetState() == Advance(old(GetState()), draws)
        invariant forall j :: 0 <= j < draws ==> !ShiftedAccepts(Advance(old(GetState()), j), n, shift)
      {
        var x, accepted := DrawShifted(n, shift);
        draws := draws + 1;
        if accepted {
          found, r := true, x;
          return;
        }
      }
    }

    /**
     * get_uint64z: count the shift down from 64 while halving n - 1, then shifted
     * rejection sampling with at most `fuel` draws. As written the shift is one too
     * large: see ShiftedAsWrittenMissesTop.
     */
    method GetUint64z(n: Word, fuel: nat) returns (found: bool, r: Word, draws: nat)
      modifies this
      ensures draws <= fuel
      ensures GetState() == Advance(old(GetState()), draws)
      ensures found ==> draws >= 1 && r == ShiftedDraw(Advance(old(GetState()), draws - 1), ShiftAsWritten(n))
      ensures found ==> r < n
      ensures found && n >= 3 ==> r != n - 1
      ensures !found ==> draws == fuel
    {
      var v := Pred(n);
      var shift: int := 64;
      v := v / 2;
      while v != 0
        invariant shift - BitLength(v) == ShiftAsWritten(n)
        decreases v
      {
        shift := shift - 1;
        v := v / 2;
      }
      found, r, draws := SampleShifted(n, shift, fuel);
      if found && n >= 3 {
        ShiftedAsWrittenMissesTop(Advance(old(GetState()), draws - 1), n);
      }
    }

    /**
     * get_uint64z with the shift counted down from 64 while halving n - 1 itself,
     * so that it keeps exactly bitlength(n - 1) high bits of each draw.
     */
    method GetUint64zCorrected(n: Word, fuel: nat) returns (found: bool, r: Word, draws: nat)
      modifies this
      ensures draws <= fuel
      ensures GetState() == Advance(old(GetState()), draws)
      ensures found ==> draws >= 1 && r == ShiftedDraw(Advance(old(GetState()), draws - 1), ShiftCorrected(n))
      ensures found ==> r < n
      ensures !found ==> draws == fuel
    {
      var v := Pred(n);
      var shift: int := 64;
      while v != 0
        invariant shift - BitLength(v) == ShiftCorrected(n)
        decreases v
      {
        shift := shift - 1;
        v := v / 2;
      }
      found, r, draws := SampleShifted(n, shift, fuel);
    }
  }

  // ---------------------------------------------------------------------
  // create_random_seed
  // ---------------------------------------------------------------------

  /** One round of the 32-bit xorshift (17, 13, 5) used to mix the seed. */
  function Mix32(v: bv32): bv32
  {
    var a := v ^ (v << 17);
    var b := a ^ (a >> 13);
    b ^ (b << 5)
  }

  /**
   * create_random_seed with the process id and the clock as inputs (both already
   * truncated to 32 bits, as the casts in the source do). The result is a non-zero
   * 31-bit value.
   */
  function CreateRandomSeed(pid: bv32, time: bv32): (v: bv32)
    ensures v != 0 && v < 0x8000_0000
  {
    var v0: bv32 := 0x6ba6_58b3;
    var v1 := Mix32(v0 + (pid + (pid << 15) + (pid >> 3)));
    var v2 := Mix32(v1 + time);
    var v3 := Mix32(Mix32(Mix32(Mix32(v2))));
    var masked := v3 & 0x7FFF_FFFF;
    if masked == 0 then 0x6a27_d958 else masked
  }
}

/** The masks of `EJS_ALIGN`, `IS_ALIGNED_TO` and `PTR_TO_ARENA` on 64-bit words, and the arithmetic on
    addresses that they stand for.
 */
module Words {
  import opened Layout

  predicate IsPow2(x: bv64) {
    x != 0 && x & (x - 1) == 0
  }

  predicate Odd(x: bv64) {
    x & 1 == 1
  }

  function Half(x: bv64): (h: bv64)
    ensures x != 0 ==> h < x
  {
    x >> 1
  }

  /** The number a word stands for. */
  function Value(x: bv64): nat
    decreases x
  {
    if x == 0 then 0 else LowBit(x) + 2 * Value(Half(x))
  }

  function LowBit(x: bv64): nat {
    if Odd(x) then 1 else 0
  }

  /** Word `x` without the bits below the power of two `a`. */
  function ClearBelow(x: bv64, a: bv64): bv64 {
    x & !(a - 1)
  }

  /** The bits of `x` below the power of two `a`. */
  function KeepBelow(x: bv64, a: bv64): bv64 {
    x & (a - 1)
  }

  // ----- halving -----

  lemma HalfOfPow2(a: bv64)
    requires IsPow2(a) && a != 1
    ensures IsPow2(Half(a)) && !Odd(a)
  {
  }

  lemma HalfOfCleared(x: bv64, a: bv64)
    requires IsPow2(a) && a != 1
    ensures Half(ClearBelow(x, a)) == ClearBelow(Half(x), Half(a)) && !Odd(ClearBelow(x, a))
  {
  }

  lemma HalfOfKept(x: bv64, a: bv64)
    requires IsPow2(a) && a != 1
    ensures Half(KeepBelow(x, a)) == KeepBelow(Half(x), Half(a)) && (Odd(KeepBelow(x, a)) <==> Odd(x))
  {
  }

  lemma BelowOne(x: bv64)
    ensures ClearBelow(x, 1) == x && KeepBelow(x, 1) == 0
  {
  }

  lemma ZeroAndOne()
    ensures Half(0) == 0 && !Odd(0) && Half(1) == 0 && Odd(1) && Half(2) == 1 && !Odd(2)
  {
  }

  lemma HalvesOf16(x: bv64)
    requires x & 0xF == 0
    ensures var y := Half(x); var z := Half(y); var w := Half(z);
            !Odd(x) && !Odd(y) && !Odd(z) && !Odd(w) && Half(w) == x >> 4
  {
  }

  lemma ValueStep(x: bv64)
    ensures Value(x) == LowBit(x) + 2 * Value(Half(x))
  {
    hide Half, Odd;
    ZeroAndOne();
  }

  lemma SmallValues()
    ensures Value(0) == 0 && Value(1) == 1 && Value(2) == 2
  {
    hide Half, Odd;
    ZeroAndOne();
  }

  // ----- masks are division by a power of two -----

  lemma DoubledQuotient(b: nat, v: nat, w: nat)
    requires b < 2 && w > 0
    ensures (b + 2 * v) / (2 * w) * (2 * w) == 2 * (v / w * w) && (b + 2 * v) % (2 * w) == b + 2 * (v % w)
  {
    var q, r := v / w, v % w;
    assert v == w * q + r;
    Doubled(w, q);
    assert b + 2 * v == (2 * w) * q + (b + 2 * r);
    QuotientUnique(b + 2 * v, 2 * w, q);
  }

  lemma Doubled(w: nat, q: nat)
    ensures (2 * w) * q == 2 * (w * q) && q * (2 * w) == 2 * (q * w)
  {
  }

  /** For every power of two, clearing the bits below it is rounding down to a multiple, and keeping only
      those bits is the remainder. */
  lemma {:induction false} MaskIsDivision(x: bv64, a: bv64)
    requires IsPow2(a)
    ensures Value(a) > 0 && Value(ClearBelow(x, a)) == Value(x) / Value(a) * Value(a)
    ensures Value(KeepBelow(x, a)) == Value(x) % Value(a)
    decreases a
  {
    NotZero(a);
    hide Half, Odd, ClearBelow, KeepBelow, Value, IsPow2;
    if a == 1 {
      SmallValues();
      BelowOne(x);
    } else {
      HalfOfPow2(a);
      HalfOfCleared(x, a);
      HalfOfKept(x, a);
      MaskIsDivision(Half(x), Half(a));
      ValueStep(x);
      ValueStep(a);
      ValueStep(ClearBelow(x, a));
      ValueStep(KeepBelow(x, a));
      DoubledQuotient(LowBit(x), Value(Half(x)), Value(Half(a)));
    }
  }

  lemma NotZero(a: bv64)
    requires IsPow2(a)
    ensures a != 0
  {
  }

  // ----- the range of words -----

  const WORDS: nat := 0x1_0000_0000_0000_0000

  /** A word of `n` bits, and the number of those. */
  predicate Short(x: bv64, n: nat) {
    if n == 0 then x == 0 else Short(Half(x), n - 1)
  }

  function Pow2(n: nat): nat {
    if n == 0 then 1 else 2 * Pow2(n - 1)
  }

  lemma {:induction false} ShortBound(x: bv64, n: nat)
    requires Short(x, n)
    ensures Value(x) < Pow2(n)
    decreases n
  {
    hide Value, Half;
    if n == 0 {
      SmallValues();
    } else {
      ShortBound(Half(x), n - 1);
      ValueStep(x);
    }
  }

  function Shift4(x: bv64): bv64 {
    x >> 4
  }

  function Shift16(x: bv64): bv64 {
    x >> 16
  }

  lemma ShiftsAddUp(x: bv64)
    ensures Half(Half(Half(Half(x)))) == Shift4(x)
    ensures Shift4(Shift4(Shift4(Shift4(x)))) == Shift16(x)
    ensures Shift16(Shift16(Shift16(Shift16(x)))) == 0
  {
  }

  lemma Short4(x: bv64, n: nat)
    ensures Short(x, n + 4) <==> Short(Shift4(x), n)
    ensures Pow2(n + 4) == 16 * Pow2(n)
  {
    ShiftsAddUp(x);
    hide Half, Shift4, Shift16;
    assert Short(Half(x), n + 3) <==> Short(Half(Half(x)), n + 2);
    assert Short(Half(Half(Half(x))), n + 1) <==> Short(Shift4(x), n);
    assert Pow2(n + 4) == 2 * Pow2(n + 3) && Pow2(n + 2) == 2 * Pow2(n + 1);
  }

  lemma Short16(x: bv64, n: nat)
    ensures Short(x, n + 16) <==> Short(Shift16(x), n)
    ensures Pow2(n + 16) == 65536 * Pow2(n)
  {
    ShiftsAddUp(x);
    hide Half, Shift4, Shift16, Short, Pow2;
    Short4(x, n + 12);
    Short4(Shift4(x), n + 8);
    Short4(Shift4(Shift4(x)), n + 4);
    Short4(Shift4(Shift4(Shift4(x))), n);
  }

  lemma NoBits()
    ensures Short(0, 0) && Pow2(0) == 1
  {
  }

  lemma AllShort(x: bv64)
    ensures Short(x, 64) && Pow2(64) == WORDS
  {
    hide Half, Shift4, Shift16, Short, Pow2;
    NoBits();
    ShiftsAddUp(x);
    Short16(x, 48);
    Short16(Shift16(x), 32);
    Short16(Shift16(Shift16(x)), 16);
    Short16(Shift16(Shift16(Shift16(x))), 0);
  }

  lemma ValueBound(x: bv64)
    ensures Value(x) < WORDS
  {
    hide Half, Short, Pow2, Value;
    AllShort(x);
    ShortBound(x, 64);
  }

  /** EJS_ALIGN, for every address: `sum` is the word for `v + a - 1`, which wraps. It rounds up if the
      addition does not wrap, and gives null if it does. */
  lemma AlignIsAlignUp(v: bv64, a: bv64, sum: bv64)
    requires IsPow2(a) && (Value(v) + Value(a) - 1 - Value(sum)) % WORDS == 0
    ensures Value(a) > 0
    ensures Value(ClearBelow(sum, a))
         == if Value(v) + Value(a) <= WORDS then AlignUp(Value(v), Value(a)) else 0
  {
    hide Value, ClearBelow, KeepBelow, IsPow2;
    MaskIsDivision(sum, a);
    ValueBound(v);
    ValueBound(a);
    ValueBound(sum);
    WrappedSum(Value(v), Value(a), Value(sum));
  }

  lemma WrappedSum(v: nat, a: nat, sum: nat)
    requires 0 < a < WORDS && v < WORDS && sum < WORDS && (v + a - 1 - sum) % WORDS == 0
    ensures v + a <= WORDS ==> sum == v + a - 1
    ensures v + a > WORDS ==> sum / a * a == 0
  {
    if v + a > WORDS {
      assert sum == v + a - 1 - WORDS;
      QuotientUnique(sum, a, 0);
    }
  }

  /** IS_ALIGNED_TO tests the remainder. */
  lemma IsAlignedIsRemainder(v: bv64, a: bv64)
    requires IsPow2(a)
    ensures Value(a) > 0 && (KeepBelow(v, a) == 0 <==> Value(v) % Value(a) == 0)
  {
    hide KeepBelow, Value, IsPow2;
    MaskIsDivision(v, a);
    OnlyZeroIsZero(KeepBelow(v, a));
  }

  lemma {:induction false} OnlyZeroIsZero(x: bv64)
    ensures Value(x) == 0 <==> x == 0
    decreases x
  {
    if x != 0 {
      OnlyZeroIsZero(Half(x));
      assert Half(x) == 0 ==> Odd(x);
    }
  }

  /** PTR_TO_ARENA rounds down to a multiple of the arena size. */
  lemma PtrToArenaIsDivision(x: bv64)
    ensures Value(ClearBelow(x, 0x200_0000)) == Value(x) / ARENA_SIZE * ARENA_SIZE
  {
    assert IsPow2(0x200_0000);
    hide ClearBelow, KeepBelow, IsPow2, Value;
    MaskIsDivision(x, 0x200_0000);
    ArenaSizeValue();
  }

  lemma Times16(x: bv64)
    requires x & 0xF == 0
    ensures Value(x) == 16 * Value(x >> 4)
  {
    hide Value, Half, Odd;
    HalvesOf16(x);
    ValueStep(x);
    ValueStep(Half(x));
    ValueStep(Half(Half(x)));
    ValueStep(Half(Half(Half(x))));
  }

  lemma ArenaSizeValue()
    ensures Value(0x200_0000) == ARENA_SIZE
  {
    hide Value;
    SmallValues();
    Times16(0x200_0000);
    Times16(0x20_0000);
    Times16(0x2_0000);
    Times16(0x2000);
    Times16(0x200);
    Times16(0x20);
  }
}

/** Size classes: `pow2_ceil`, `ffs` and the bucket arithmetic of `_ejs_gc_alloc` and `_ejs_finalize_obj`. */
module SizeClasses {
  import opened Words

  const LOW_BITS: int := 4   // smallest cell: 16 bytes
  const HIGH_BITS: int := 8

  /** Bit smearing. The step for 64-bit words is guarded by a macro nothing defines, so the highest
      shift is 16. */
  function Smear(x: bv64): bv64 {
    var x := x | (x >> 1);
    var x := x | (x >> 2);
    var x := x | (x >> 4);
    var x := x | (x >> 8);
    x | (x >> 16)
  }

  /** Arithmetic wraps, as size_t does. */
  function Pow2Ceil(size: bv64): bv64 {
    Smear(size - 1) + 1
  }

  function BucketSize(size: bv64): bv64 {
    if Pow2Ceil(size) > 16 then Pow2Ceil(size) else 16
  }

  /** Position of the lowest set bit of a C int, counted from 1; 0 if there is none. */
  function Ffs(x: bv32): nat {
    if x == 0 then 0
    else if x & 0xFF != 0 then FfsByte(x)
    else if x & 0xFF00 != 0 then 8 + FfsByte(x >> 8)
    else if x & 0xFF_0000 != 0 then 16 + FfsByte(x >> 16)
    else 24 + FfsByte(x >> 24)
  }

  function FfsByte(x: bv32): (n: nat)
    ensures n >= 1
  {
    if x & 1 != 0 then 1 else if x & 2 != 0 then 2 else if x & 4 != 0 then 3 else if x & 8 != 0 then 4
    else if x & 16 != 0 then 5 else if x & 32 != 0 then 6 else if x & 64 != 0 then 7 else 8
  }

  /** Where `_ejs_gc_alloc` sends a request: to the large object store, to a list of pages, new ones
      having cells of some size, or to an index outside the table of page lists. */
  datatype Class = Large | Small(cellSize: int, bucket: nat) | OutOfTable

  /** The conversion of the bucket size to a C int keeps the low 32 bits. */
  function ToInt32(x: bv64): bv32 {
    (x & 0xFFFF_FFFF) as bv32
  }

  /** The number of bytes a request is for. */
  function Bytes(size: bv64): nat {
    size as nat
  }

  /** The value of a C int. */
  function Signed(x: bv32): int {
    if x < 0x8000_0000 then x as int else x as int - 0x1_0000_0000
  }

  function Classify(size: bv64): Class {
    var c := ToInt32(BucketSize(size));
    if Ffs(c) > HIGH_BITS then Large
    else if Ffs(c) < LOW_BITS then OutOfTable
    else Small(Signed(c), Ffs(c) - LOW_BITS)
  }

  /** The bucket finalization computes from a page's cell size. */
  function BucketOf(cellSize: bv32): int {
    Ffs(cellSize) - LOW_BITS
  }

  /** The cell sizes pages come in. */
  predicate IsCellSize(c: int) {
    c == 16 || c == 32 || c == 64 || c == 128
  }

  function SmallBucket(c: int): nat
    requires IsCellSize(c)
  {
    if c == 16 then 1 else if c == 32 then 2 else if c == 64 then 3 else 4
  }

  lemma CellSizeBuckets()
    ensures BucketOf(16) == SmallBucket(16) && BucketOf(32) == SmallBucket(32)
    ensures BucketOf(64) == SmallBucket(64) && BucketOf(128) == SmallBucket(128)
  {
  }

  // ----- which request goes where -----

  /** Of the 32-bit windows of `x` that begin at bits 0 to `n - 1`, none is all zeros; bits beyond the
      word count as zero. */
  predicate Covered(x: bv64, n: nat) {
    n == 0 || (x & 0xFFFF_FFFF != 0 && Covered(x >> 1, n - 1))
  }

  /** Requests for the large object store. */
  predicate GoesLarge(size: bv64) {
    size > 16 && Covered(size - 1, 8) && !Covered(size - 1, 32)
  }

  /** Requests for which there is no list. */
  predicate GoesNowhere(size: bv64) {
    size > 16 && (!Covered(size - 1, 3) || (Covered(size - 1, 32) && !Covered(size - 1, 64)))
  }

  /** The lowest `n` bits are ones. */
  predicate LowOnes(y: bv64, n: nat) {
    n == 0 || (y & 1 == 1 && LowOnes(y >> 1, n - 1))
  }

  lemma SmearOneOn(x: bv64)
    ensures Smear(x) >> 1 == Smear(x >> 1)
    ensures Smear(x) & 1 == 1 <==> x & 0xFFFF_FFFF != 0
  {
  }

  lemma {:induction false} CoveredIsSmeared(x: bv64, n: nat)
    ensures Covered(x, n) <==> LowOnes(Smear(x), n)
  {
    hide Smear;
    if n > 0 {
      SmearOneOn(x);
      CoveredIsSmeared(x >> 1, n - 1);
    }
  }

  // ----- when smearing gives a power of two -----

  /** Below the highest one bit of `x` no 32-bit window of zeros begins. */
  predicate Unbroken(x: bv64)
    decreases x
  {
    x == 0 || (x & 0xFFFF_FFFF != 0 && Unbroken(x >> 1))
  }

  /** A row of ones and nothing above it. */
  predicate OnlyOnes(y: bv64) {
    y & (y + 1) == 0
  }

  lemma OnlyOnesStep(y: bv64)
    ensures OnlyOnes(y) <==> y == 0 || (y & 1 == 1 && OnlyOnes(y >> 1))
  {
  }

  lemma SmearOfZero(x: bv64)
    ensures Smear(x) == 0 <==> x == 0
  {
  }

  lemma {:induction false} UnbrokenIsOnes(x: bv64)
    ensures Unbroken(x) <==> OnlyOnes(Smear(x))
    decreases x
  {
    hide Smear, OnlyOnes;
    OnlyOnesStep(Smear(x));
    SmearOfZero(x);
    if x != 0 {
      SmearOneOn(x);
      UnbrokenIsOnes(x >> 1);
    }
  }

  /** Half of `q` would not hold `size`. */
  predicate HalfTooSmall(q: bv64, size: bv64) {
    q >> 1 <= size - 1
  }

  /** Smearing keeps the highest one bit. */
  lemma HalfIsTooSmall(size: bv64)
    requires size != 0 && IsPow2(Pow2Ceil(size))
    ensures HalfTooSmall(Pow2Ceil(size), size)
  {
  }

  lemma LeastPow2(q: bv64, size: bv64, p: bv64)
    requires IsPow2(q) && IsPow2(p) && HalfTooSmall(q, size) && size != 0 && size <= p
    ensures q <= p
  {
  }

  lemma LeastAbove(size: bv64, p: bv64)
    requires IsPow2(Pow2Ceil(size)) && IsPow2(p) && size != 0 && size <= p
    ensures Pow2Ceil(size) <= p
  {
    hide Pow2Ceil, IsPow2, HalfTooSmall;
    HalfIsTooSmall(size);
    LeastPow2(Pow2Ceil(size), size, p);
  }

  lemma PowerIsOnes(size: bv64)
    ensures IsPow2(Pow2Ceil(size)) <==> OnlyOnes(Smear(size - 1)) && Smear(size - 1) != 0xFFFF_FFFF_FFFF_FFFF
  {
    hide Smear;
  }

  lemma NoRequest()
    ensures !IsPow2(Pow2Ceil(0))
  {
  }

  lemma Pow2CeilAbove(size: bv64)
    ensures IsPow2(Pow2Ceil(size)) ==> size <= Pow2Ceil(size)
  {
    SmearAbove(size - 1);
    hide Smear;
  }

  /** For every size: smearing gives a power of two exactly if no 32-bit window of zeros begins below the
      highest one bit of `size - 1` and the windows do not cover the whole word, and then it is the least
      power of two that is large enough. */
  lemma Pow2CeilExactly(size: bv64)
    ensures IsPow2(Pow2Ceil(size)) <==> Unbroken(size - 1) && !Covered(size - 1, 64)
    ensures IsPow2(Pow2Ceil(size)) ==>
              size <= Pow2Ceil(size) && forall p: bv64 :: IsPow2(p) && size <= p ==> Pow2Ceil(size) <= p
  {
    hide Smear, Unbroken, Covered, Pow2Ceil, OnlyOnes, IsPow2;
    UnbrokenIsOnes(size - 1);
    CoveredMasks(size - 1);
    PowerIsOnes(size);
    Pow2CeilAbove(size);
    NoRequest();
    if IsPow2(Pow2Ceil(size)) {
      forall p: bv64 | IsPow2(p) && size <= p ensures Pow2Ceil(size) <= p {
        LeastAbove(size, p);
      }
    }
  }

  /** The first size for which it does not. */
  lemma SmearingBreaks()
    ensures !IsPow2(Pow2Ceil(0x1_0000_0001))
  {
  }

  /** It does for every size from 1 to 2^32. */
  lemma Pow2CeilIsLeast(size: bv64)
    requires 1 <= size <= 0x1_0000_0000
    ensures IsPow2(Pow2Ceil(size)) && size <= Pow2Ceil(size)
    ensures forall p: bv64 :: IsPow2(p) && size <= p ==> Pow2Ceil(size) <= p
  {
    UpTo32(size);
    hide Pow2Ceil, IsPow2, Unbroken, Covered;
    Pow2CeilExactly(size);
  }

  lemma UpTo32(size: bv64)
    requires 1 <= size <= 0x1_0000_0000
    ensures IsPow2(Pow2Ceil(size))
  {
  }

  lemma FourOnes(y: bv64, n: nat)
    ensures LowOnes(y, n + 4) <==> y & 0xF == 0xF && LowOnes(y >> 4, n)
  {
    assert LowOnes(y >> 1, n + 3) <==> (y >> 1) & 1 == 1 && LowOnes((y >> 1) >> 1, n + 2);
    assert LowOnes(y >> 2, n + 2) <==> (y >> 2) & 1 == 1 && LowOnes((y >> 2) >> 1, n + 1);
    assert LowOnes(y >> 3, n + 1) <==> (y >> 3) & 1 == 1 && LowOnes((y >> 3) >> 1, n);
    assert (y >> 1) >> 1 == y >> 2 && (y >> 2) >> 1 == y >> 3 && (y >> 3) >> 1 == y >> 4;
  }

  lemma EightOnes(y: bv64, n: nat)
    ensures LowOnes(y, n + 8) <==> y & 0xFF == 0xFF && LowOnes(y >> 8, n)
  {
    hide LowOnes;
    FourOnes(y, n + 4);
    FourOnes(y >> 4, n);
    assert (y >> 4) >> 4 == y >> 8;
  }

  lemma ThreeOnes(y: bv64)
    ensures LowOnes(y, 3) <==> y & 7 == 7
  {
    assert LowOnes(y >> 1, 2) <==> (y >> 1) & 1 == 1 && LowOnes((y >> 1) >> 1, 1);
    assert LowOnes(y >> 2, 1) <==> (y >> 2) & 1 == 1 && LowOnes((y >> 2) >> 1, 0);
    assert (y >> 1) >> 1 == y >> 2;
  }

  lemma ThirtyTwoOnes(y: bv64, n: nat)
    ensures LowOnes(y, n + 32) <==> y & 0xFFFF_FFFF == 0xFFFF_FFFF && LowOnes(y >> 32, n)
  {
    hide LowOnes;
    EightOnes(y, n + 24);
    EightOnes(y >> 8, n + 16);
    EightOnes((y >> 8) >> 8, n + 8);
    EightOnes(((y >> 8) >> 8) >> 8, n);
    assert (((y >> 8) >> 8) >> 8) >> 8 == y >> 32;
  }

  lemma CoveredMasks(x: bv64)
    ensures Covered(x, 3) <==> Smear(x) & 7 == 7
    ensures Covered(x, 8) <==> Smear(x) & 0xFF == 0xFF
    ensures Covered(x, 32) <==> Smear(x) & 0xFFFF_FFFF == 0xFFFF_FFFF
    ensures Covered(x, 64) <==> Smear(x) == 0xFFFF_FFFF_FFFF_FFFF
  {
    var y := Smear(x);
    CoveredIsSmeared(x, 3);
    CoveredIsSmeared(x, 8);
    CoveredIsSmeared(x, 32);
    CoveredIsSmeared(x, 64);
    ThreeOnes(y);
    EightOnes(y, 0);
    ThirtyTwoOnes(y, 0);
    ThirtyTwoOnes(y, 32);
    ThirtyTwoOnes(y >> 32, 0);
    hide Covered, Smear;
  }

  /** Requests of up to 32 gigabytes. */
  lemma ModestSizes(size: bv64)
    requires size <= 0x8_0000_0000
    ensures GoesLarge(size) <==> 128 < size <= 0x8000_0000
    ensures GoesNowhere(size) <==> size > 0x8000_0000
  {
    hide Covered;
    CoveredMasks(size - 1);
  }

  /** The bucket size, seen through the windows of `size - 1`. */
  lemma BucketSizeWindows(size: bv64)
    requires size > 16
    ensures var c := ToInt32(BucketSize(size));
            && (c & 7 == 0 <==> Covered(size - 1, 3))
            && (c != 0 && c & 0xFF == 0 <==> Covered(size - 1, 8) && !Covered(size - 1, 32))
            && (c == 0 <==> Covered(size - 1, 32) && !Covered(size - 1, 64))
  {
    CoveredMasks(size - 1);
    SmearAbove(size - 1);
    hide Covered, Smear;
  }

  lemma SmearAbove(x: bv64)
    ensures x <= Smear(x)
  {
  }

  lemma FfsRange(c: bv32)
    ensures Ffs(c) > HIGH_BITS <==> c != 0 && c & 0xFF == 0
    ensures Ffs(c) < LOW_BITS <==> c == 0 || c & 7 != 0
  {
  }

  /** A C int that is a cell size selects that size's list. */
  lemma CellSizeHasBucket(c: bv32)
    requires IsCellSize(Signed(c))
    ensures BucketOf(c) == SmallBucket(Signed(c))
  {
    CellSizeBuckets();
    hide Ffs;
    assert c == 16 || c == 32 || c == 64 || c == 128;
  }

  lemma SmallBucketSizes(size: bv64)
    requires size <= 128
    ensures BucketSize(size) == if size <= 16 then 16 else if size <= 32 then 32 else if size <= 64 then 64 else 128
  {
  }

  lemma ClassifySmall(size: bv64)
    requires size <= 128
    ensures var c := Classify(size);
            && c.Small? && IsCellSize(c.cellSize) && c.bucket == SmallBucket(c.cellSize)
            && Bytes(size) <= c.cellSize && (c.cellSize == 16 || c.cellSize < 2 * Bytes(size))
  {
    hide BucketSize, Ffs;
    SmallBucketSizes(size);
    CellSizeBuckets();
    assert ToInt32(16) == 16 && ToInt32(32) == 32 && ToInt32(64) == 64 && ToInt32(128) == 128;
    SizeAsNat(size);
  }

  lemma SizeAsNat(size: bv64)
    ensures size <= 16 ==> Bytes(size) <= 16
    ensures 16 < size <= 32 ==> 16 < Bytes(size) <= 32
    ensures 32 < size <= 64 ==> 32 < Bytes(size) <= 64
    ensures 64 < size <= 128 ==> 64 < Bytes(size) <= 128
  {
  }

  /** No request of more than 128 bytes fits the cells of the list it is sent to. */
  lemma TooSmall(size: bv64)
    requires size > 128 && Classify(size).Small?
    ensures size > 0x8_0000_0000 && Classify(size).cellSize < Bytes(size)
  {
    hide Covered, Smear, Ffs;
    FfsRange(ToInt32(BucketSize(size)));
    BucketSizeWindows(size);
    if size <= 0x8_0000_0000 {
      ModestSizes(size);
    }
  }

  /** Every request of up to 128 bytes gets the least cell size that holds it, in the bucket finalization
      will compute for it. Every other one is sent by the first 32-bit window of zeros in `size - 1`:
      at bit 8 to 31 to the large object store; below bit 3 or from bit 32 on, outside the table of
      lists; at bit 3 to 7, or if there is none, to a list whose cells are too small. */
  lemma ClassifyExactly(size: bv64)
    ensures var c := Classify(size);
            && (c.Large? <==> GoesLarge(size))
            && (c.OutOfTable? <==> GoesNowhere(size))
            && (c.Small? ==> c.bucket <= 4 && (IsCellSize(c.cellSize) ==> c.bucket == SmallBucket(c.cellSize))
                             && (Bytes(size) <= c.cellSize <==> size <= 128))
            && (size <= 128 ==> c.Small? && IsCellSize(c.cellSize)
                                && (c.cellSize == 16 || c.cellSize < 2 * Bytes(size)))
  {
    hide Covered, Smear, Ffs, Signed;
    var c := ToInt32(BucketSize(size));
    FfsRange(c);
    if size <= 128 {
      ClassifySmall(size);
    } else {
      BucketSizeWindows(size);
      if Classify(size).Small? {
        TooSmall(size);
        if IsCellSize(Signed(c)) {
          CellSizeHasBucket(c);
        }
      }
    }
    if 16 < size <= 128 {
      ModestSizes(size);
    }
  }

  /** A request of more than 2^63 bytes for which the smallest cell is handed out. */
  lemma HugeRequestGetsSmallestCell()
    ensures Classify(0x8000_0000_8000_0001) == Small(16, 1)
  {
    assert Pow2Ceil(0x8000_0000_8000_0001) == 0;
    CellSizeBuckets();
    hide Ffs;
  }
}

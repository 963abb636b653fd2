/**
 * Chunk alignment of the format layer: rounding a region out to whole cells of a
 * maximum chunk size with the mask `coord & ~(size - 1)`, and the emptiness test
 * of one chunk-sized block.
 */
module ChunkAlignment {
  import opened Bits
  import opened Regions
  import opened Scenes

  /** `x & ~(m - 1)` as the two's-complement mask on all integers; on 32-bit values it agrees with C++'s `&` and `~` on `int`. */
  function AlignDown(x: int, m: int): int {
    BitAnd(x, BitNot(m - 1))
  }

  /** For a power of two, the mask rounds down to the enclosing multiple (towards minus infinity). */
  lemma AlignDownIsFloor(x: int, m: int)
    requires IsPowerOfTwo(m)
    ensures AlignDown(x, m) == m * (x / m)
    ensures AlignDown(x, m) % m == 0
    ensures AlignDown(x, m) <= x < AlignDown(x, m) + m
  {
    MaskRoundsDown(x, m);
    PowerOfTwoPositive(m);
    DivUnique(m * (x / m), m, x / m, 0);
  }

  /** Of two multiples of m, the smaller is at least m below the larger. */
  lemma MultiplesApart(a: int, b: int, m: int)
    requires m > 0 && a % m == 0 && b % m == 0 && a < b
    ensures a + m <= b
  {
    var i, j := a / m, b / m;
    assert a == m * i && b == m * j;
    assert b - a == m * (j - i);
    PositiveMultiple(m, j - i);
  }

  lemma PositiveMultiple(m: int, k: int)
    requires m > 0 && m * k > 0
    ensures m * k >= m
  {
  }

  /** The negation of a multiple is a multiple. */
  lemma NegatedMultiple(n: int, m: int)
    requires m > 0 && n % m == 0
    ensures (-n) % m == 0
  {
    var k := n / m;
    assert n == m * k;
    DivUnique(-n, m, -k, 0);
  }

  /** The cell [lo, hi] of size m is aligned to m and encloses [lower, upper]. */
  predicate CellCovers(lower: int, upper: int, m: int, lo: int, hi: int) {
    m > 0 && lo % m == 0 && lo <= lower < lo + m &&
    (hi + 1) % m == 0 && hi - m < upper <= hi
  }

  /** Both corners as the source computes them. */
  function CellLow(lower: int, m: int): int {
    AlignDown(lower, m)
  }

  function CellHigh(upper: int, m: int): int {
    AlignDown(upper, m) + m - 1
  }

  lemma AxisCovers(lower: int, upper: int, m: int)
    requires IsPowerOfTwo(m)
    ensures CellCovers(lower, upper, m, CellLow(lower, m), CellHigh(upper, m))
  {
    AlignDownIsFloor(lower, m);
    AlignDownIsFloor(upper, m);
    NextMultiple(AlignDown(upper, m), m);
  }

  lemma NextMultiple(a: int, m: int)
    requires m > 0 && a % m == 0
    ensures (a + m) % m == 0
  {
    var k := a / m;
    assert a == m * k;
    assert a + m == m * (k + 1);
    DivUnique(a + m, m, k + 1, 0);
  }

  /** The largest power of two a positive 32-bit int holds. */
  const MAX_INT32_POWER_OF_TWO: int := 0x4000_0000

  /** On 32-bit coordinates and a 32-bit power of two, both final corners are 32-bit values. */
  lemma AxisInInt32(lower: int, upper: int, m: int)
    requires IsPowerOfTwo(m) && m <= MAX_INT32_POWER_OF_TWO
    requires IsInt32(lower) && IsInt32(upper)
    ensures IsInt32(CellLow(lower, m)) && IsInt32(CellHigh(upper, m))
  {
    PowerOfTwo31();
    PowerOfTwoDivides(m, 0x8000_0000);
    NegatedMultiple(0x8000_0000, m);
    AlignDownIsFloor(lower, m);
    AlignDownIsFloor(upper, m);
    LowCornerAbove(lower, m, INT32_MIN);
    HighCornerBelow(upper, m, 0x8000_0000);
  }

  /** Rounding down never crosses a multiple of the cell size. */
  lemma LowCornerAbove(x: int, m: int, bound: int)
    requires IsPowerOfTwo(m) && bound % m == 0 && bound <= x
    ensures bound <= AlignDown(x, m)
  {
    var lo := AlignDown(x, m);
    AlignDownIsFloor(x, m);
    if lo < bound {
      MultiplesApart(lo, bound, m);
    }
  }

  /** The last voxel of the cell holding x lies below any multiple of the cell size above x. */
  lemma HighCornerBelow(x: int, m: int, bound: int)
    requires IsPowerOfTwo(m) && bound % m == 0 && x < bound
    ensures AlignDown(x, m) + m <= bound
  {
    AlignDownIsFloor(x, m);
    MultiplesApart(AlignDown(x, m), bound, m);
  }

  /**
   * The upper corner is evaluated left to right as `(upper & ~(m - 1)) + m - 1`: the
   * intermediate sum `(upper & ~(m - 1)) + m` is a 32-bit value exactly when `upper`
   * lies below the top cell of the 32-bit range, `upper < 2^31 - m`.
   */
  lemma TopCellSumInInt32(upper: int, m: int)
    requires IsPowerOfTwo(m) && m <= MAX_INT32_POWER_OF_TWO && IsInt32(upper)
    ensures IsInt32(AlignDown(upper, m) + m) <==> upper < 0x8000_0000 - m
  {
    PowerOfTwo31();
    PowerOfTwoDivides(m, 0x8000_0000);
    NegatedMultiple(0x8000_0000, m);
    LowCornerAbove(upper, m, INT32_MIN);
    SumBelowBound(upper, m, 0x8000_0000);
  }

  /** Against a multiple `bound` of m: the sum stays below it exactly when x lies below its last cell. */
  lemma SumBelowBound(x: int, m: int, bound: int)
    requires IsPowerOfTwo(m) && bound % m == 0 && x < bound
    ensures AlignDown(x, m) + m < bound <==> x < bound - m
  {
    AlignDownIsFloor(x, m);
    if x >= bound - m {
      PowerOfTwoPositive(m);
      PreviousMultiple(bound, m);
      LowCornerAbove(x, m, bound - m);
    }
  }

  lemma PreviousMultiple(a: int, m: int)
    requires m > 0 && a % m == 0
    ensures (a - m) % m == 0
  {
    var k := a / m;
    assert a == m * k;
    assert a - m == m * (k - 1);
    DivUnique(a - m, m, k - 1, 0);
  }

  /** At the top of the range the intermediate sum overflows: 0x7FFFFFF0 + 16 is 2^31. */
  lemma TopCellOverflowExample()
    ensures AlignDown(INT32_MAX, 16) + 16 == 0x8000_0000
    ensures !IsInt32(AlignDown(INT32_MAX, 16) + 16)
  {
    assert IsPowerOfTwo(16);
    AlignDownIsFloor(INT32_MAX, 16);
  }

  /** One axis of a 32-bit region and a 32-bit power-of-two cell size. */
  predicate Int32Axis(lower: int, upper: int, m: int) {
    IsPowerOfTwo(m) && m <= MAX_INT32_POWER_OF_TWO && IsInt32(lower) && IsInt32(upper)
  }

  /**
   * The corners of the region rounded out to whole cells of `maxSize`: on each axis
   * whose size is a power of two, the lower corner is rounded down to a multiple of
   * the size and the upper corner up to the last voxel of its cell; on 32-bit input
   * both final corners are 32-bit values (the sum computed on the way to the upper
   * corner is not, in the top cell of the range: see TopCellSumInInt32).
   */
  method CalcMinsMaxs(region: Region, maxSize: Vec3) returns (mins: Vec3, maxs: Vec3)
    ensures IsPowerOfTwo(maxSize.x) ==>
      CellCovers(region.lower.x, region.upper.x, maxSize.x, mins.x, maxs.x) && mins.x == maxSize.x * (region.lower.x / maxSize.x)
    ensures IsPowerOfTwo(maxSize.y) ==>
      CellCovers(region.lower.y, region.upper.y, maxSize.y, mins.y, maxs.y) && mins.y == maxSize.y * (region.lower.y / maxSize.y)
    ensures IsPowerOfTwo(maxSize.z) ==>
      CellCovers(region.lower.z, region.upper.z, maxSize.z, mins.z, maxs.z) && mins.z == maxSize.z * (region.lower.z / maxSize.z)
    ensures Int32Axis(region.lower.x, region.upper.x, maxSize.x) ==> IsInt32(mins.x) && IsInt32(maxs.x)
    ensures Int32Axis(region.lower.y, region.upper.y, maxSize.y) ==> IsInt32(mins.y) && IsInt32(maxs.y)
    ensures Int32Axis(region.lower.z, region.upper.z, maxSize.z) ==> IsInt32(mins.z) && IsInt32(maxs.z)
  {
    var lower := region.lower;
    mins := Vec3(AlignDown(lower.x, maxSize.x), AlignDown(lower.y, maxSize.y), AlignDown(lower.z, maxSize.z));
    var upper := region.upper;
    maxs := Vec3(AlignDown(upper.x, maxSize.x) + maxSize.x - 1,
                 AlignDown(upper.y, maxSize.y) + maxSize.y - 1,
                 AlignDown(upper.z, maxSize.z) + maxSize.z - 1);
    if IsPowerOfTwo(maxSize.x) {
      AxisCovers(lower.x, upper.x, maxSize.x);
      AlignDownIsFloor(lower.x, maxSize.x);
    }
    if Int32Axis(lower.x, upper.x, maxSize.x) {
      AxisInInt32(lower.x, upper.x, maxSize.x);
    }
    if IsPowerOfTwo(maxSize.y) {
      AxisCovers(lower.y, upper.y, maxSize.y);
      AlignDownIsFloor(lower.y, maxSize.y);
    }
    if Int32Axis(lower.y, upper.y, maxSize.y) {
      AxisInInt32(lower.y, upper.y, maxSize.y);
    }
    if IsPowerOfTwo(maxSize.z) {
      AxisCovers(lower.z, upper.z, maxSize.z);
      AlignDownIsFloor(lower.z, maxSize.z);
    }
    if Int32Axis(lower.z, upper.z, maxSize.z) {
      AxisInInt32(lower.z, upper.z, maxSize.z);
    }
  }

  /** A lower corner of (5, 20, -3) and cells of 16 give mins = (0, 16, -16). */
  lemma AlignmentExample()
    ensures CellLow(5, 16) == 0 && CellLow(20, 16) == 16 && CellLow(-3, 16) == -16
  {
    assert IsPowerOfTwo(16);
    AlignDownIsFloor(5, 16);
    AlignDownIsFloor(20, 16);
    AlignDownIsFloor(-3, 16);
  }

  /** Without the power-of-two precondition the mask does not align: 5 & ~2 is 5, not a multiple of 3. */
  lemma NonPowerOfTwoMisaligns()
    ensures CellLow(5, 3) == 5 && CellLow(5, 3) % 3 != 0
  {
    assert BitNot(3 - 1) == -3;
    assert BitAnd(1, -1) == 1;
    assert BitAnd(2, -2) == 2 * BitAnd(1, -1);
    assert BitAnd(5, -3) == 2 * BitAnd(2, -2) + 1;
  }

  /** The block of `maxSize` voxels whose lower corner is (x, y, z). */
  function BlockRegion(maxSize: Vec3, x: int, y: int, z: int): (r: Region)
    ensures r.lower == Vec3(x, y, z)
    ensures Dimensions(r) == maxSize
    ensures AllPositive(maxSize) ==> IsValid(r)
  {
    Region(Vec3(x, y, z), Vec3(x + maxSize.x - 1, y + maxSize.y - 1, z + maxSize.z - 1))
  }

  /** Asks the volume code whether the block of size `maxSize` anchored at (x, y, z) holds no voxel. */
  function IsEmptyBlock(isEmpty: (Volume, Region) -> bool, v: Volume, maxSize: Vec3, x: int, y: int, z: int): (r: bool)
    ensures forall b: Region :: b.lower == Vec3(x, y, z) && Dimensions(b) == maxSize ==> (r <==> isEmpty(v, b))
  {
    isEmpty(v, BlockRegion(maxSize, x, y, z))
  }
}

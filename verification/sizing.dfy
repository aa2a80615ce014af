/**
 * Sizing of the bucket array: `toNearPowerOfTwo` and `makeIndex`.
 */
module Sizing {
  import opened Bits
  import opened Outcomes

  /** `Integer.MIN_VALUE >>> 1`, i.e. 2^30: requests at or above it saturate to `Integer.MAX_VALUE`. */
  const SaturationThreshold: int := 0x4000_0000

  /** `Integer.MIN_VALUE >>> 2`, i.e. 2^29: the highest bit the scan tests first. */
  const ScanStart: int := 0x2000_0000

  /** Why a bucket array cannot be sized. */
  datatype SizeError =
    | NegativeCapacity   // the "negative capacity" exception
    | NoTermination      // the bit scan never stops (a request of 0)

  /** Reference definition: the least power of two at or above n, found by doubling from p. */
  function LeastPowerFrom(n: int, p: int): (r: int)
    requires IsPowerOfTwo(p) && (p == 1 || p < 2 * n)
    ensures IsPowerOfTwo(r) && n <= r
    ensures n >= 1 ==> r < 2 * n
    decreases n - p
  {
    if p >= n then p else LeastPowerFrom(n, 2 * p)
  }

  /** The least power of two at or above n. */
  function CeilPow2(n: int): (r: int)
    ensures IsPowerOfTwo(r) && n <= r
    ensures n >= 1 ==> r < 2 * n
  {
    LeastPowerFrom(n, 1)
  }

  /** No power of two at or above n lies below CeilPow2(n). */
  lemma CeilPow2IsLeast(n: int, q: int)
    requires n >= 1 && IsPowerOfTwo(q) && n <= q
    ensures CeilPow2(n) <= q
  {
    var r := CeilPow2(n);
    if q < r {
      PowersApart(q, r);
    }
  }

  /** The only power of two in [n, 2n) is CeilPow2(n). */
  lemma PowerInWindow(n: int, q: int)
    requires n >= 1 && IsPowerOfTwo(q) && n <= q < 2 * n
    ensures q == CeilPow2(n)
  {
    var r := CeilPow2(n);
    if r < q {
      PowersApart(r, q);
    }
    CeilPow2IsLeast(n, q);
  }

  /**
   * What `toNearPowerOfTwo` yields: an error for a negative request, `Integer.MAX_VALUE`
   * at or above 2^30, no result at all for 0, and otherwise the least power of two at
   * or above the request.
   */
  function NearPowerOfTwo(value: Int32): Result<Int32, SizeError>
  {
    if value < 0 then Err(NegativeCapacity)
    else if value >= SaturationThreshold then Ok(IntMax)
    else if value == 0 then Err(NoTermination)
    else Ok(CeilPow2(value))
  }

  /**
   * `toNearPowerOfTwo`: scans down from bit 29 for the highest set bit v of the request,
   * then returns v when the request is exactly v and 2v otherwise.
   */
  method ToNearPowerOfTwo(value: Int32) returns (r: Result<Int32, SizeError>)
    ensures r == NearPowerOfTwo(value)
    ensures r == Err(NegativeCapacity) <==> value < 0
    ensures r == Err(NoTermination) <==> value == 0
    ensures 0 < value < SaturationThreshold ==>
              r.Ok? && IsPowerOfTwo(r.value) && value <= r.value < 2 * value
    ensures value >= SaturationThreshold ==> r == Ok(IntMax)
  {
    if value < 0 {
      return Err(NegativeCapacity);
    }
    if value >= SaturationThreshold {
      return Ok(IntMax);
    }
    if value == 0 {
      // `v & 0` is 0 for every v (ZeroRequestNeverStops), so the Java loop spins forever.
      return Err(NoTermination);
    }
    var v := HighestBit(value);
    var size := if v == value then v else 2 * v;
    PowerInWindow(value, size);
    r := Ok(size);
  }

  /**
   * The scan of `toNearPowerOfTwo`: starting from bit 29, shift v right while
   * `(v & value) == 0`; it stops at the highest set bit of the request.
   */
  method HighestBit(value: Int32) returns (v: int)
    requires 0 < value < SaturationThreshold
    ensures IsPowerOfTwo(v) && v <= value < 2 * v
  {
    v := ScanStart;
    ScanStartIsPowerOfTwo();
    while And(v, value) == 0
      invariant IsPowerOfTwo(v) && value < 2 * v
      decreases v
    {
      ScanPasses(v, value);
      v := v / 2;
    }
    ScanStops(v, value);
  }

  /** A clear bit v of a request below 2v means the request is below v, so the scan may go on to v / 2. */
  lemma ScanPasses(v: int, value: nat)
    requires IsPowerOfTwo(v) && 0 < value < 2 * v && And(v, value) == 0
    ensures v >= 2 && IsPowerOfTwo(v / 2) && value < v == 2 * (v / 2)
  {
    AndSingleBit(v, value);
    if value >= v {
      DivModUnique(value, v, 1, value - v);
    }
  }

  /** A set bit v of a request below 2v is its highest set bit. */
  lemma ScanStops(v: int, value: nat)
    requires IsPowerOfTwo(v) && value < 2 * v && And(v, value) != 0
    ensures v <= value
  {
    AndSingleBit(v, value);
    if value < v {
      DivModUnique(value, v, 0, value);
    }
  }

  /** For a request of 0 the scan's guard `(v & value) == 0` holds for every v, so the loop never exits. */
  lemma ZeroRequestNeverStops(v: nat)
    ensures And(v, 0) == 0
  {
  }

  /** The saturated size `Integer.MAX_VALUE` is not a power of two. */
  lemma SaturatedSizeNotPowerOfTwo()
    ensures !IsPowerOfTwo(IntMax)
    ensures NearPowerOfTwo(SaturationThreshold) == Ok(IntMax)
  {
  }

  /** `makeIndex`: a bucket index from a hash, by masking with `indexMask`. */
  function MakeIndex(hash: Int32, indexMask: Int32): (i: int)
    requires indexMask >= 0
    ensures 0 <= i <= indexMask
  {
    AndInt(hash, indexMask)
  }

  /** For every request the constructor accepts, every hash lands inside the bucket array. */
  lemma MakeIndexInRange(hash: Int32, capacity: Int32)
    requires NearPowerOfTwo(capacity).Ok?
    ensures var size := NearPowerOfTwo(capacity).value;
            size >= 1 && 0 <= MakeIndex(hash, size - 1) < size
  {
  }

  /** With a power-of-two array the mask computes the hash modulo the array length. */
  lemma MakeIndexIsModulo(hash: Int32, size: int)
    requires IsPowerOfTwo(size) && size <= SaturationThreshold
    ensures MakeIndex(hash, size - 1) == hash % size
  {
    AndLowMask(Unsigned(hash), size);
    Two32IsPowerOfTwo();
    PowerDividesPower(size, Two32);
    ModOfMod(hash, Two32, size);
  }

  /** 2^29, the scan's starting bit, is a power of two. */
  lemma ScanStartIsPowerOfTwo()
    ensures IsPowerOfTwo(ScanStart)
  {
    Pow2IsPowerOfTwo(29);
    assert Pow2(8) == 0x100;
    assert Pow2(16) == 0x1_0000;
    assert Pow2(24) == 0x100_0000;
    assert Pow2(29) == ScanStart;
  }

  /** 2^32 is a power of two. */
  lemma Two32IsPowerOfTwo()
    ensures IsPowerOfTwo(Two32)
  {
    Pow2IsPowerOfTwo(32);
    assert Pow2(8) == 0x100;
    assert Pow2(16) == 0x1_0000;
    assert Pow2(24) == 0x100_0000;
    assert Pow2(32) == Two32;
  }

  /**
   * With the saturated size `Integer.MAX_VALUE` the mask 0x7FFF_FFFE has bit 0 clear,
   * so only even buckets are ever used.
   */
  lemma SaturatedIndexIsEven(hash: Int32)
    ensures MakeIndex(hash, IntMax - 1) % 2 == 0
  {
    AndEvenMask(Unsigned(hash), IntMax - 1);
  }
}

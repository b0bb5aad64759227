/**
 * `ceillog2` from bitpacking.hpp: the number of bits needed to tell apart x
 * palette indices, computed as `63 - clz(2 * x - 1)` on a 64-bit `size_t`.
 */
module BitWidth {
  import opened Bits

  /** `63 - __builtin_clzll(y)`: the position of the highest set bit of y. */
  function FloorLog2(y: nat): (r: nat)
    requires y >= 1
    ensures Pow2(r) <= y < Pow2(r + 1)
    decreases y
  {
    if y == 1 then 0 else FloorLog2(y / 2) + 1
  }

  /** `2 * x - 1` in `size_t` arithmetic: it wraps modulo 2^64. */
  function TwiceMinusOne(x: nat): (r: nat)
    requires 1 <= x < 0x1_0000_0000_0000_0000
    ensures r % 2 == 1 && r < 0x1_0000_0000_0000_0000
    ensures x <= 0x8000_0000_0000_0000 ==> r == 2 * x - 1
  {
    (2 * x - 1) % 0x1_0000_0000_0000_0000
  }

  /**
   * `ceillog2(x)`; the source asserts x != 0. Up to 2^63 the result is the
   * least b with 2^b >= x; above that `2 * x - 1` wraps and the result is not
   * meaningful (no palette comes near it).
   */
  function CeilLog2(x: nat): (r: nat)
    requires 1 <= x < 0x1_0000_0000_0000_0000
    ensures x <= 0x8000_0000_0000_0000 ==> x <= Pow2(r) && (r == 0 || Pow2(r - 1) < x)
  {
    FloorLog2(TwiceMinusOne(x))
  }

  /** CeilLog2(x) is the least width whose range holds x values. */
  lemma CeilLog2Least(x: nat, b: nat)
    requires 1 <= x <= 0x8000_0000_0000_0000 && x <= Pow2(b)
    ensures CeilLog2(x) <= b
  {
    var r := CeilLog2(x);
    if r > b {
      Pow2Mono(b, r - 1);
      assert false;
    }
  }

  /** Values below x fit in CeilLog2(x) bits. */
  lemma BelowFits(x: nat, v: nat)
    requires 1 <= x <= 0x8000_0000_0000_0000 && v < x
    ensures v < Pow2(CeilLog2(x))
  {
  }

  /** `ceillog2` of 1, 2, 3 and 4 is 0, 1, 2 and 2. */
  lemma CeilLog2SmallExamples()
    ensures CeilLog2(1) == 0 && CeilLog2(2) == 1 && CeilLog2(3) == 2 && CeilLog2(4) == 2
  {
    assert Pow2(1) == 2 && Pow2(2) == 4;
    CeilLog2Least(3, 2);
    CeilLog2Least(4, 2);
  }

  /** `ceillog2` of 16, 17 and 256 is 4, 5 and 8. */
  lemma CeilLog2LargeExamples()
    ensures CeilLog2(16) == 4 && CeilLog2(17) == 5 && CeilLog2(256) == 8
  {
    assert Pow2(3) == 8 && Pow2(4) == 16 && Pow2(5) == 32 && Pow2(7) == 128;
    Pow2Of8();
    CeilLog2Least(16, 4);
    CeilLog2Least(17, 5);
    CeilLog2Least(256, 8);
  }

  /** The widths the dispatchers meet: 0 for one value, 1..8 for 2..256 values. */
  lemma CeilLog2Range(x: nat)
    requires 1 <= x <= 256
    ensures x == 1 <==> CeilLog2(x) == 0
    ensures CeilLog2(x) <= 8
    ensures x <= 16 <==> CeilLog2(x) <= 4
  {
    Pow2Values();
    CeilLog2Least(x, 8);
    if x <= 16 {
      CeilLog2Least(x, 4);
    } else if CeilLog2(x) <= 4 {
      Pow2Mono(CeilLog2(x), 4);
    }
    if x > 1 && CeilLog2(x) == 0 {
      assert false;
    }
  }

  /** Above 256 values no width up to 8 is enough. */
  lemma CeilLog2Wide(x: nat)
    requires 256 < x <= 0x8000_0000_0000_0000
    ensures CeilLog2(x) > 8
  {
    Pow2Values();
    if CeilLog2(x) <= 8 {
      Pow2Mono(CeilLog2(x), 8);
    }
  }
}

/**
 * `bitpackVanilla` and `bitpackOptimized` from bitpacking.hpp: the width
 * `ceillog2(distincts)` picks one of the eight packers. A packer is described
 * by its `Layout`; the layouts the code uses are `AsWrittenLayout`, the ones
 * its tests and comments describe are `IntendedLayout`, and the corrected
 * dispatchers pack with the latter and decode back to their input.
 */
module Dispatch {
  import opened Bits
  import opened BitWidth
  import opened Wrappers
  import opened PackingSpec
  import opened Packers
  import opened Bitpacking

  /**
   * How a packer lays out values: nothing at all (a single distinct value),
   * `per` values of `w` bits to a byte with byte i reading from `step * i`,
   * or groups of `group` values to a 64-bit word with group i reading from
   * `stride * i`.
   */
  datatype Layout =
    | Skip
    | Bytes(w: nat, per: nat, step: nat)
    | Grouped(w: nat, group: nat, stride: nat)

  /** The bits each value occupies. */
  function Width(l: Layout): nat
  {
    match l
    case Skip => 0
    case Bytes(w, _, _) => w
    case Grouped(w, _, _) => w
  }

  /** The packer `bitpack16to<width>` and the constants it uses. */
  function AsWrittenLayout(width: nat): Option<Layout>
  {
    if width == 0 then Some(Skip)
    else if width == 1 then Some(Bytes(1, 8, 2))
    else if width == 2 then Some(Bytes(2, 4, 2))
    else if width == 3 then Some(Grouped(3, 21, 21))
    else if width == 4 then Some(Bytes(4, 2, 2))
    else if width == 5 then Some(Grouped(5, 12, 12))
    else if width == 6 then Some(Grouped(6, 10, 12))
    else if width == 7 then Some(Grouped(7, 9, 12))
    else if width == 8 then Some(Bytes(8, 1, 1))
    else None
  }

  /** Reading each byte's or word's values right after the previous ones. */
  function Contiguous(l: Layout): Layout
  {
    match l
    case Skip => Skip
    case Bytes(w, per, _) => Bytes(w, per, per)
    case Grouped(w, group, _) => Grouped(w, group, group)
  }

  /** The layout the tests and comments describe for each width. */
  function IntendedLayout(width: nat): (r: Option<Layout>)
    ensures r.Some? <==> AsWrittenLayout(width).Some?
  {
    match AsWrittenLayout(width)
    case None => None
    case Some(l) => Some(Contiguous(l))
  }

  /** A layout whose values fit without overlap and are read contiguously. */
  predicate Sound(l: Layout)
  {
    match l
    case Skip => true
    case Bytes(w, per, step) => per > 0 && step == per && w <= 8 && Offset(per, w) <= 8
    case Grouped(w, group, stride) => group > 0 && stride == group && Offset(group, w) <= 64
  }

  /** Widths 0 to 8 have a packer of that width, and the intended one is sound. */
  lemma IntendedLayoutSound(width: nat)
    requires width <= 8
    ensures AsWrittenLayout(width).Some? && Width(AsWrittenLayout(width).value) == width
    ensures IntendedLayout(width).Some? && Sound(IntendedLayout(width).value)
  {
    OffsetMul(8, 1);
    OffsetMul(4, 2);
    OffsetMul(21, 3);
    OffsetMul(2, 4);
    OffsetMul(12, 5);
    OffsetMul(10, 6);
    OffsetMul(9, 7);
    OffsetMul(1, 8);
  }

  /** The packers for widths 1, 2, 6 and 7 are the ones that do not read contiguously. */
  lemma AsWrittenContiguous(width: nat)
    requires width <= 8
    ensures AsWrittenLayout(width) == IntendedLayout(width) <==> width !in {1, 2, 6, 7}
  {
  }

  // ---------------------------------------------------------------------
  // Dispatch.

  /** `bitpackOptimized`: the packer of width `ceillog2(distincts)`; `None` is an assertion failure. */
  function OptimizedLayout(distincts: nat): Option<Layout>
    requires distincts < 0x1_0000_0000_0000_0000
  {
    if distincts == 0 then None else AsWrittenLayout(CeilLog2(distincts))
  }

  /** `bitpackVanilla`: widths 0 to 4 all go to the 4-bit packer. */
  function VanillaLayout(distincts: nat): Option<Layout>
    requires distincts < 0x1_0000_0000_0000_0000
  {
    if distincts == 0 then None
    else if CeilLog2(distincts) <= 4 then AsWrittenLayout(4)
    else AsWrittenLayout(CeilLog2(distincts))
  }

  /** The same choice of width, with the intended layout. */
  function Intended(l: Option<Layout>): Option<Layout>
  {
    match l
    case None => None
    case Some(l) => Some(Contiguous(l))
  }

  /**
   * `bitpackOptimized` succeeds exactly for 1 to 256 distinct values, stores
   * nothing for one value, and otherwise packs `ceillog2(distincts)` bits a value.
   */
  lemma OptimizedDispatch(distincts: nat)
    requires distincts <= 0x8000_0000_0000_0000
    ensures OptimizedLayout(distincts).Some? <==> 1 <= distincts <= 256
    ensures OptimizedLayout(distincts) == Some(Skip) <==> distincts == 1
    ensures 1 <= distincts <= 256 ==> Width(OptimizedLayout(distincts).value) == CeilLog2(distincts)
  {
    if 1 <= distincts <= 256 {
      CeilLog2Range(distincts);
      IntendedLayoutSound(CeilLog2(distincts));
    } else if distincts > 256 {
      CeilLog2Wide(distincts);
    }
  }

  /**
   * `bitpackVanilla` succeeds exactly for 1 to 256 distinct values, sends up
   * to 16 of them to the 4-bit packer and the rest to the packer of width
   * `ceillog2(distincts)`.
   */
  lemma VanillaDispatch(distincts: nat)
    requires distincts <= 0x8000_0000_0000_0000
    ensures VanillaLayout(distincts).Some? <==> 1 <= distincts <= 256
    ensures 1 <= distincts <= 16 ==> VanillaLayout(distincts) == Some(Bytes(4, 2, 2))
    ensures 16 < distincts <= 256 ==>
      Width(VanillaLayout(distincts).value) == CeilLog2(distincts) && 5 <= CeilLog2(distincts) <= 8
  {
    if 1 <= distincts <= 256 {
      CeilLog2Range(distincts);
      IntendedLayoutSound(CeilLog2(distincts));
    } else if distincts > 256 {
      CeilLog2Wide(distincts);
    }
  }

  // ---------------------------------------------------------------------
  // The dispatchers as written.

  /** What a packer as written needs of its arguments. */
  predicate Ready(l: Layout, srcLength: nat, count: nat, outLength: nat)
  {
    match l
    case Skip => true
    case Bytes(_, per, step) =>
      per > 0 && step <= per && count % per == 0 && count <= srcLength && count / per <= outLength
    case Grouped(_, group, stride) =>
      group > 0 && count <= srcLength && ReadEnd(count, group, stride) <= srcLength &&
      (count > 0 ==> outLength >= 8)
  }

  /** The size a packer as written returns. */
  function Size(l: Layout, count: nat): nat
    requires l.Bytes? ==> l.per > 0
    requires l.Grouped? ==> l.group > 0
  {
    match l
    case Skip => 0
    case Bytes(_, per, _) => count / per
    case Grouped(_, group, _) => GroupedSize(count, group)
  }

  /** The whole output buffer after a packer as written. */
  function Image(l: Layout, before: seq<u8>, src: seq<nat>, count: nat): (r: seq<u8>)
    requires Ready(l, |src|, count, |before|)
    ensures |r| == |before|
  {
    match l
    case Skip => before
    case Bytes(w, per, step) =>
      BytesInRange(count, per, step);
      AsWrittenBytes(src, count / per, w, per, step) + before[count / per..]
    case Grouped(w, group, stride) => GroupedImage(before, src, count, w, group, stride)
  }

  /**
   * `bitpackOptimized`: packs `count` values with the packer of width
   * `ceillog2(distincts)`, or stores nothing for a single distinct value;
   * `None` stands for its `assert(false)` (and for `ceillog2`'s on 0).
   */
  method BitpackOptimized(distincts: nat, src: seq<u16>, count: nat, out: array<u8>) returns (r: Option<nat>)
    requires distincts < 0x1_0000_0000_0000_0000
    requires OptimizedLayout(distincts).Some? ==> Ready(OptimizedLayout(distincts).value, |src|, count, out.Length)
    modifies out
    ensures r.Some? <==> OptimizedLayout(distincts).Some?
    ensures r.None? ==> out[..] == old(out[..])
    ensures r.Some? ==>
      var l := OptimizedLayout(distincts).value;
      r.value == Size(l, count) && out[..] == Image(l, old(out[..]), src, count)
  {
    if distincts == 0 {
      return None;
    }
    var width := CeilLog2(distincts);
    if width == 0 {
      return Some(0);
    } else if width in {1, 2, 4, 8} {
      var written := PackBytesWidth(width, src, count, out);
      return Some(written);
    } else if width in {3, 5, 6, 7} {
      var written := PackGroupedWidth(width, src, count, out);
      return Some(written);
    }
    return None;
  }

  /** The byte packers `bitpack16to1`, `bitpack16to2`, `bitpack16to4` and `bitpack16to8`. */
  method PackBytesWidth(width: nat, src: seq<u16>, count: nat, out: array<u8>) returns (written: nat)
    requires width in {1, 2, 4, 8} && Ready(AsWrittenLayout(width).value, |src|, count, out.Length)
    modifies out
    ensures written == Size(AsWrittenLayout(width).value, count)
    ensures out[..] == Image(AsWrittenLayout(width).value, old(out[..]), src, count)
  {
    if width == 1 {
      written := Bitpack16To1(src, count, out);
    } else if width == 2 {
      written := Bitpack16To2(src, count, out);
    } else if width == 4 {
      written := Bitpack16To4(src, count, out);
      BytesImage(src, count, 4, 2, old(out[..]), out[..]);
    } else {
      written := Bitpack16To8(src, count, out);
      BytesImage(src, count, 8, 1, old(out[..]), out[..]);
    }
  }

  /** The grouped packers `bitpack16to3`, `bitpack16to5`, `bitpack16to6` and `bitpack16to7`. */
  method PackGroupedWidth(width: nat, src: seq<u16>, count: nat, out: array<u8>) returns (written: nat)
    requires width in {3, 5, 6, 7} && Ready(AsWrittenLayout(width).value, |src|, count, out.Length)
    modifies out
    ensures written == Size(AsWrittenLayout(width).value, count)
    ensures out[..] == Image(AsWrittenLayout(width).value, old(out[..]), src, count)
  {
    if width == 3 {
      written := Bitpack16To3(src, count, out);
    } else if width == 5 {
      written := Bitpack16To5(src, count, out);
    } else if width == 6 {
      written := Bitpack16To6(src, count, out);
    } else {
      written := Bitpack16To7(src, count, out);
    }
  }

  /** The 4-bit and 8-bit packers' contiguous bytes are the as-written image. */
  lemma BytesImage(src: seq<nat>, count: nat, w: nat, per: nat, before: seq<u8>, after: seq<u8>)
    requires per > 0 && count % per == 0 && count <= |src| && count / per <= |before| == |after|
    requires after[..count / per] == EncodeBytes(src[..count], w, per)
    requires after[count / per..] == before[count / per..]
    ensures Ready(Bytes(w, per, per), |src|, count, |before|)
    ensures after == Image(Bytes(w, per, per), before, src, count)
  {
    BytesInRange(count, per, per);
    AsWrittenBytesAtStepPer(src, count / per, w, per);
    assert after == after[..count / per] + after[count / per..];
  }

  /**
   * `bitpackVanilla`: packs `count` values with the 4-bit packer for up to
   * 16 distinct values and with the packer of width `ceillog2(distincts)`
   * above that; `None` stands for its `assert(false)` (and for `ceillog2`'s on 0).
   */
  method BitpackVanilla(distincts: nat, src: seq<u16>, count: nat, out: array<u8>) returns (r: Option<nat>)
    requires distincts < 0x1_0000_0000_0000_0000
    requires VanillaLayout(distincts).Some? ==> Ready(VanillaLayout(distincts).value, |src|, count, out.Length)
    modifies out
    ensures r.Some? <==> VanillaLayout(distincts).Some?
    ensures r.None? ==> out[..] == old(out[..])
    ensures r.Some? ==>
      var l := VanillaLayout(distincts).value;
      r.value == Size(l, count) && out[..] == Image(l, old(out[..]), src, count)
  {
    if distincts == 0 {
      return None;
    }
    var width := CeilLog2(distincts);
    if width <= 4 {
      var written := PackBytesWidth(4, src, count, out);
      return Some(written);
    } else if width == 8 {
      var written := PackBytesWidth(8, src, count, out);
      return Some(written);
    } else if width in {5, 6, 7} {
      var written := PackGroupedWidth(width, src, count, out);
      return Some(written);
    }
    return None;
  }

  /**
   * The source's callers pack a whole 4096-value block into a 4096-byte
   * buffer. The packers for widths 6 and 7 then read past the block, the
   * other packers do not.
   */
  lemma AsWrittenBlock(width: nat)
    requires width <= 8
    ensures width !in {6, 7} <==> Ready(AsWrittenLayout(width).value, 4096, 4096, 4096)
  {
    if width == 3 {
      OffsetMul(194, 21);
    } else if width == 5 {
      OffsetMul(340, 12);
    } else if width == 6 {
      OffsetMul(408, 12);
    } else if width == 7 {
      OffsetMul(454, 12);
    }
  }

  // ---------------------------------------------------------------------
  // The corrected dispatchers.

  /** What a packer with a contiguous layout needs of its arguments. */
  predicate IntendedReady(l: Layout, srcLength: nat, count: nat, outLength: nat)
  {
    match l
    case Skip => count <= srcLength
    case Bytes(_, per, _) => per > 0 && count % per == 0 && count <= srcLength && count / per <= outLength
    case Grouped(_, group, _) => group > 0 && count <= srcLength && GroupedSize(count, group) <= outLength
  }

  /** With contiguous reads every width fits a 4096-value block and a 4096-byte buffer. */
  lemma IntendedBlock(width: nat)
    requires width <= 8
    ensures IntendedReady(IntendedLayout(width).value, 4096, 4096, 4096)
  {
  }

  /** The bytes a contiguous layout produces for `vals`. */
  function Encode(l: Layout, vals: seq<nat>): seq<u8>
    requires l.Bytes? ==> l.per > 0
    requires l.Grouped? ==> l.group > 0
  {
    match l
    case Skip => []
    case Bytes(w, per, _) => EncodeBytes(vals, w, per)
    case Grouped(w, group, _) => EncodeGrouped(vals, w, group)
  }

  /** The `count` values read back from `bytes`; a single distinct value is index 0. */
  function Decode(l: Layout, bytes: seq<u8>, count: nat): seq<nat>
    requires l.Grouped? ==> l.group > 0
  {
    match l
    case Skip => seq(count, _ => 0)
    case Bytes(w, per, _) => DecodeBytes(bytes, w, per)
    case Grouped(w, group, _) => DecodeGrouped(bytes, count, w, group)
  }

  /**
   * A sound layout gives back every value that fits its width, and its size
   * is the one the packers return.
   */
  lemma LayoutRoundTrip(l: Layout, vals: seq<nat>)
    requires Sound(l) && FitsIn(vals, Width(l))
    requires l.Bytes? ==> |vals| % l.per == 0
    ensures |Encode(l, vals)| == Size(l, |vals|)
    ensures Decode(l, Encode(l, vals), |vals|) == vals
  {
    match l
    case Skip =>
      assert Pow2(0) == 1;
    case Bytes(w, per, _) =>
      BytesInRange(|vals|, per, per);
      EncodeBytesSize(vals, |vals| / per, w, per);
      BytesRoundTrip(vals, |vals| / per, w, per);
    case Grouped(w, group, _) =>
      EncodeGroupedSize(vals, w, group);
      GroupedRoundTrip(vals, w, group);
  }

  /** Packs `count` values with a contiguous layout. */
  method PackContiguous(l: Layout, src: seq<u16>, count: nat, out: array<u8>) returns (written: nat)
    requires Sound(l) && IntendedReady(l, |src|, count, out.Length)
    modifies out
    ensures written == Size(l, count)
    ensures out[..written] == Encode(l, src[..count])
    ensures out[written..] == old(out[written..])
  {
    match l
    case Skip =>
      written := 0;
    case Bytes(w, per, _) =>
      written := BitpackBytes(src, count, out, w, per, per);
      BytesInRange(count, per, per);
      AsWrittenBytesAtStepPer(src, written, w, per);
    case Grouped(w, group, _) =>
      written := BitpackGroupedFixed(src, count, out, w, group);
  }

  /**
   * `bitpackOptimized` with contiguous layouts: the same choice of width,
   * and the values come back from the bytes it writes.
   */
  method BitpackOptimizedFixed(distincts: nat, src: seq<u16>, count: nat, out: array<u8>) returns (r: Option<nat>)
    requires distincts < 0x1_0000_0000_0000_0000
    requires Intended(OptimizedLayout(distincts)).Some? ==>
      IntendedReady(Intended(OptimizedLayout(distincts)).value, |src|, count, out.Length)
    modifies out
    ensures r.Some? <==> OptimizedLayout(distincts).Some?
    ensures r.None? ==> out[..] == old(out[..])
    ensures r.Some? ==>
      r.value <= out.Length &&
      out[..r.value] == Encode(Intended(OptimizedLayout(distincts)).value, src[..count]) &&
      out[r.value..] == old(out[r.value..])
  {
    if distincts == 0 || CeilLog2(distincts) > 8 {
      return None;
    }
    IntendedLayoutSound(CeilLog2(distincts));
    var written := PackContiguous(Intended(OptimizedLayout(distincts)).value, src, count, out);
    r := Some(written);
  }

  /**
   * `bitpackVanilla` with contiguous layouts: the same choice of width, and
   * the values come back from the bytes it writes.
   */
  method BitpackVanillaFixed(distincts: nat, src: seq<u16>, count: nat, out: array<u8>) returns (r: Option<nat>)
    requires distincts < 0x1_0000_0000_0000_0000
    requires Intended(VanillaLayout(distincts)).Some? ==>
      IntendedReady(Intended(VanillaLayout(distincts)).value, |src|, count, out.Length)
    modifies out
    ensures r.Some? <==> VanillaLayout(distincts).Some?
    ensures r.None? ==> out[..] == old(out[..])
    ensures r.Some? ==>
      r.value <= out.Length &&
      out[..r.value] == Encode(Intended(VanillaLayout(distincts)).value, src[..count]) &&
      out[r.value..] == old(out[r.value..])
  {
    if distincts == 0 || CeilLog2(distincts) > 8 {
      return None;
    }
    IntendedLayoutSound(CeilLog2(distincts));
    IntendedLayoutSound(4);
    var written := PackContiguous(Intended(VanillaLayout(distincts)).value, src, count, out);
    r := Some(written);
  }

  /**
   * End to end: palette indices below `distincts` packed by the corrected
   * `bitpackOptimized` decode back to themselves, for any count that is a
   * multiple of 8 (a 4096-value block is).
   */
  lemma OptimizedRoundTrip(distincts: nat, vals: seq<nat>)
    requires 1 <= distincts <= 256 && |vals| % 8 == 0
    requires forall k :: 0 <= k < |vals| ==> vals[k] < distincts
    ensures Intended(OptimizedLayout(distincts)).Some?
    ensures
      var l := Intended(OptimizedLayout(distincts)).value;
      Decode(l, Encode(l, vals), |vals|) == vals
  {
    var width := CeilLog2(distincts);
    CeilLog2Range(distincts);
    IntendedLayoutSound(width);
    var l := Intended(OptimizedLayout(distincts)).value;
    forall k | 0 <= k < |vals|
      ensures vals[k] < Pow2(width)
    {
      BelowFits(distincts, vals[k]);
    }
    if l.Bytes? {
      MultipleOfEight(|vals|, l.per);
    }
    LayoutRoundTrip(l, vals);
  }

  /**
   * End to end: palette indices below `distincts` packed by the corrected
   * `bitpackVanilla` decode back to themselves, for any count that is a
   * multiple of 8.
   */
  lemma VanillaRoundTrip(distincts: nat, vals: seq<nat>)
    requires 1 <= distincts <= 256 && |vals| % 8 == 0
    requires forall k :: 0 <= k < |vals| ==> vals[k] < distincts
    ensures Intended(VanillaLayout(distincts)).Some?
    ensures
      var l := Intended(VanillaLayout(distincts)).value;
      Decode(l, Encode(l, vals), |vals|) == vals
  {
    var width := CeilLog2(distincts);
    CeilLog2Range(distincts);
    IntendedLayoutSound(width);
    IntendedLayoutSound(4);
    var l := Intended(VanillaLayout(distincts)).value;
    forall k | 0 <= k < |vals|
      ensures vals[k] < Pow2(Width(l))
    {
      BelowFits(distincts, vals[k]);
      if width <= 4 {
        Pow2Mono(width, 4);
      }
    }
    if l.Bytes? {
      MultipleOfEight(|vals|, l.per);
    }
    LayoutRoundTrip(l, vals);
  }

  /** A multiple of 8 values fills whole bytes of 1, 2, 4 or 8 values. */
  lemma MultipleOfEight(n: nat, per: nat)
    requires per in {1, 2, 4, 8} && n % 8 == 0
    ensures n % per == 0
  {
    var q := n / 8;
    if per == 2 {
      assert n == 2 * (4 * q);
    } else if per == 4 {
      assert n == 4 * (2 * q);
    }
  }
}

/**
 * What the packers of bitpacking.hpp compute, as functions on sequences.
 *
 * Two layouts are defined side by side: the one the code produces as written
 * (`GroupedImage`, `AsWrittenBytes`) and the one its tests and comments
 * describe (`EncodeGrouped`, `EncodeBytes`), which has a decoder and a round
 * trip. Positions `k * w` are written `Offset(k, w)`.
 */
module PackingSpec {
  import opened Bits
  import opened Wrappers

  /**
   * `(x0 << 0) | (x1 << w) | (x2 << 2w) | ...` on `std::uint64_t`, or-ed left
   * to right as the grouped packers and their remainder loops do.
   */
  function PackWord(s: seq<nat>, w: nat): (r: nat)
    ensures r < 0x1_0000_0000_0000_0000
  {
    if s == [] then 0
    else
      var a, b := PackWord(s[..|s| - 1], w), Shl64(s[|s| - 1], Offset(|s| - 1, w));
      Pow2Of64();
      OrBound(a, b, 64);
      Or(a, b)
  }

  /** When every value fits in w bits and the group fits in the word, nothing overlaps. */
  lemma {:induction false} PackWordIsSum(s: seq<nat>, w: nat)
    requires FitsIn(s, w) && Offset(|s|, w) <= 64
    ensures PackWord(s, w) == Sum(s, w)
  {
    if s != [] {
      var n := |s| - 1;
      var t, v, m := s[..n], s[n], Offset(n, w);
      assert FitsIn(t, w);
      PackWordIsSum(t, w);
      SumBound(t, w);
      Shl64Exact(v, m, w);
      OrDisjoint(Sum(t, w), v, m);
    }
  }

  /**
   * `(uint8_t)x0 | ((uint8_t)x1 << w) | ...` in `int` arithmetic, as the byte
   * packers compute it before the store truncates it to a byte.
   */
  function BytePack(s: seq<nat>, w: nat): nat
  {
    if s == [] then 0 else Or(BytePack(s[..|s| - 1], w), (s[|s| - 1] % 256) * Pow2(Offset(|s| - 1, w)))
  }

  /** The byte `out[i] = ...` stores. */
  function PackByte(s: seq<nat>, w: nat): u8
  {
    BytePack(s, w) % 256
  }

  lemma {:induction false} BytePackIsSum(s: seq<nat>, w: nat)
    requires FitsIn(s, w) && w <= 8
    ensures BytePack(s, w) == Sum(s, w)
  {
    if s != [] {
      var n := |s| - 1;
      var t, v, m := s[..n], s[n], Offset(n, w);
      assert FitsIn(t, w);
      BytePackIsSum(t, w);
      SumBound(t, w);
      Pow2Values();
      Pow2Mono(w, 8);
      ModSmall(v, 256);
      OrDisjoint(Sum(t, w), v, m);
    }
  }

  /** A group whose fields end by bit 8 is stored unchanged in one byte. */
  lemma PackByteIsSum(s: seq<nat>, w: nat)
    requires FitsIn(s, w) && w <= 8 && Offset(|s|, w) <= 8
    ensures PackByte(s, w) == Sum(s, w)
  {
    BytePackIsSum(s, w);
    SumBound(s, w);
    Pow2Values();
    Pow2Mono(Offset(|s|, w), 8);
    ModSmall(Sum(s, w), 256);
  }

  // ---------------------------------------------------------------------
  // Grouped packers (widths 3, 5, 6, 7): groups of `group` values per word.

  /** The byte count the grouped packers return: 8 per full group, 8 for a remainder. */
  function GroupedSize(count: nat, group: nat): nat
    requires group > 0
  {
    8 * (count / group) + (if count % group == 0 then 0 else 8)
  }

  /** One past the last input index the group loop reads when group i starts at stride * i. */
  function ReadEnd(count: nat, group: nat, stride: nat): nat
    requires group > 0
  {
    var loops := count / group;
    if loops == 0 then 0 else Offset(loops - 1, stride) + group
  }

  /**
   * The word the grouped packer stores last, always at `out`: the remainder
   * word built from `in[0..count % group)` when there is a remainder, the last
   * group word otherwise, and none when count is 0.
   */
  function LastStored(src: seq<nat>, count: nat, w: nat, group: nat, stride: nat): (r: Option<u64>)
    requires group > 0 && count <= |src| && ReadEnd(count, group, stride) <= |src|
    ensures r.None? <==> count == 0
  {
    var loops, rest := count / group, count % group;
    if rest != 0 then Some(PackWord(src[..rest], w))
    else if loops == 0 then None
    else
      var at := Offset(loops - 1, stride);
      Some(PackWord(src[at..at + group], w))
  }

  /** The whole output buffer after a grouped packer as written. */
  function GroupedImage(before: seq<u8>, src: seq<nat>, count: nat, w: nat, group: nat, stride: nat): (r: seq<u8>)
    requires group > 0 && count <= |src| && ReadEnd(count, group, stride) <= |src|
    requires count > 0 ==> |before| >= 8
    ensures |r| == |before|
  {
    match LastStored(src, count, w, group, stride)
    case None => before
    case Some(x) => LeBytes(x) + before[8..]
  }

  /** Whatever count is, the code as written changes at most the first eight bytes of `out`. */
  lemma GroupedImageKeepsTail(before: seq<u8>, src: seq<nat>, count: nat, w: nat, group: nat, stride: nat)
    requires group > 0 && count <= |src| && ReadEnd(count, group, stride) <= |src|
    requires count > 0 ==> |before| >= 8
    ensures forall k :: 8 <= k < |before| ==> GroupedImage(before, src, count, w, group, stride)[k] == before[k]
  {
  }

  /** The size of the next group: all that is left, at most `group`. */
  function Min(a: nat, b: nat): nat
  {
    if a < b then a else b
  }

  /** The intended layout: one word per group of `group` values, words in order. */
  function EncodeGrouped(vals: seq<nat>, w: nat, group: nat): seq<u8>
    requires group > 0
    decreases |vals|
  {
    if vals == [] then []
    else
      var n := Min(|vals|, group);
      LeBytes(PackWord(vals[..n], w)) + EncodeGrouped(vals[n..], w, group)
  }

  /** Reads count values back from words of `group` w-bit fields. */
  function DecodeGrouped(bytes: seq<u8>, count: nat, w: nat, group: nat): seq<nat>
    requires group > 0
    decreases count
  {
    if count == 0 || |bytes| < 8 then []
    else
      var n := Min(count, group);
      Fields(LoadLe64(bytes[..8]), n, w) + DecodeGrouped(bytes[8..], count - n, w, group)
  }

  lemma {:induction false} EncodeGroupedSize(vals: seq<nat>, w: nat, group: nat)
    requires group > 0
    ensures |EncodeGrouped(vals, w, group)| == GroupedSize(|vals|, group)
    decreases |vals|
  {
    var c := |vals|;
    if c == 0 {
    } else if c < group {
      DivModUnique(c, group, 0, c);
    } else {
      EncodeGroupedSize(vals[group..], w, group);
      DivAddMul(c - group, 1, group);
    }
  }

  /** The fields of a packed group are its values. */
  lemma FieldsOfSum(s: seq<nat>, w: nat)
    requires FitsIn(s, w)
    ensures Fields(Sum(s, w), |s|, w) == s
  {
    forall k | 0 <= k < |s|
      ensures Field(Sum(s, w), k, w) == s[k]
    {
      FieldOfSum(s, w, k);
    }
  }

  lemma {:induction false} OffsetMono(k: nat, j: nat, w: nat)
    requires k <= j
    ensures Offset(k, w) <= Offset(j, w)
  {
    if k < j {
      OffsetBefore(k, j, w);
    }
  }

  /** Whole groups then the remainder: count == group * (count / group) + count % group. */
  lemma GroupSplit(count: nat, group: nat)
    requires group > 0
    ensures Offset(count / group, group) + count % group == count
  {
    OffsetMul(count / group, group);
    DivModParts(count, group);
  }

  /** Positions at a smaller step come no later. */
  lemma {:induction false} OffsetStepMono(k: nat, a: nat, b: nat)
    requires a <= b
    ensures Offset(k, a) <= Offset(k, b)
  {
    if k > 0 {
      OffsetStepMono(k - 1, a, b);
    }
  }

  /** A word of at most `group` values of w bits reads back as those values. */
  lemma WordRoundTrip(s: seq<nat>, w: nat, group: nat)
    requires FitsIn(s, w) && |s| <= group && Offset(group, w) <= 64
    ensures Fields(LoadLe64(LeBytes(PackWord(s, w))), |s|, w) == s
  {
    OffsetMono(|s|, group, w);
    PackWordIsSum(s, w);
    LeBytesRoundTrip(PackWord(s, w));
    FieldsOfSum(s, w);
  }

  /** Decoding the intended layout gives back the values. */
  lemma {:induction false} GroupedRoundTrip(vals: seq<nat>, w: nat, group: nat)
    requires group > 0 && FitsIn(vals, w) && Offset(group, w) <= 64
    ensures DecodeGrouped(EncodeGrouped(vals, w, group), |vals|, w, group) == vals
    decreases |vals|
  {
    if vals != [] {
      var n := Min(|vals|, group);
      var tail := vals[n..];
      calc {
        DecodeGrouped(EncodeGrouped(vals, w, group), |vals|, w, group);
        { GroupedStep(vals, n, w, group); }
        vals[..n] + DecodeGrouped(EncodeGrouped(tail, w, group), |tail|, w, group);
        { FitsInDrop(vals, n, w);
          GroupedRoundTrip(tail, w, group); }
        vals[..n] + tail;
      }
      assert vals[..n] + tail == vals;
    }
  }

  /** The first word of the intended layout decodes to the first group. */
  lemma GroupedStep(vals: seq<nat>, n: nat, w: nat, group: nat)
    requires group > 0 && vals != [] && n == Min(|vals|, group)
    requires FitsIn(vals, w) && Offset(group, w) <= 64
    ensures DecodeGrouped(EncodeGrouped(vals, w, group), |vals|, w, group)
         == vals[..n] + DecodeGrouped(EncodeGrouped(vals[n..], w, group), |vals[n..]|, w, group)
  {
    var word := LeBytes(PackWord(vals[..n], w));
    var rest := EncodeGrouped(vals[n..], w, group);
    var bytes := word + rest;
    assert bytes[..8] == word && bytes[8..] == rest;
    FitsInTake(vals, n, w);
    WordRoundTrip(vals[..n], w, group);
  }

  lemma FitsInTake(s: seq<nat>, n: nat, w: nat)
    requires n <= |s| && FitsIn(s, w)
    ensures FitsIn(s[..n], w)
  {
  }

  lemma FitsInDrop(s: seq<nat>, n: nat, w: nat)
    requires n <= |s| && FitsIn(s, w)
    ensures FitsIn(s[n..], w)
  {
  }

  /** Appending whole groups appends their words. */
  lemma {:induction false} EncodeGroupedAppend(a: seq<nat>, b: seq<nat>, k: nat, w: nat, group: nat)
    requires group > 0 && |a| == Offset(k, group)
    ensures EncodeGrouped(a + b, w, group) == EncodeGrouped(a, w, group) + EncodeGrouped(b, w, group)
    decreases k
  {
    if k > 0 {
      var ab := a + b;
      assert |a| >= group && |ab| >= group;
      assert ab[..group] == a[..group];
      assert ab[group..] == a[group..] + b;
      var word := LeBytes(PackWord(a[..group], w));
      assert EncodeGrouped(ab, w, group) == word + EncodeGrouped(ab[group..], w, group);
      assert EncodeGrouped(a, w, group) == word + EncodeGrouped(a[group..], w, group);
      EncodeGroupedAppend(a[group..], b, k - 1, w, group);
    } else {
      assert a + b == b;
    }
  }

  /** At most one group of values is one word. */
  lemma EncodeOneGroup(g: seq<nat>, w: nat, group: nat)
    requires 0 < |g| <= group
    ensures EncodeGrouped(g, w, group) == LeBytes(PackWord(g, w))
  {
    assert g[..|g|] == g && g[|g|..] == [];
  }

  /** With at most one group of input, the code as written stores the intended word. */
  lemma AsWrittenSingleWord(before: seq<u8>, src: seq<nat>, count: nat, w: nat, group: nat, stride: nat)
    requires 0 < count <= group && count <= |src| && |before| >= 8
    ensures ReadEnd(count, group, stride) <= |src|
    ensures GroupedImage(before, src, count, w, group, stride) == EncodeGrouped(src[..count], w, group) + before[8..]
    ensures GroupedImage(before, src, count, w, group, stride) == LeBytes(PackWord(src[..count], w)) + before[8..]
  {
    var vals := src[..count];
    if count < group {
      DivModUnique(count, group, 0, count);
    } else {
      DivModUnique(count, group, 1, 0);
      assert src[Offset(0, stride)..Offset(0, stride) + group] == vals;
    }
    assert LastStored(src, count, w, group, stride) == Some(PackWord(vals, w));
    EncodeOneGroup(vals, w, group);
  }

  // ---------------------------------------------------------------------
  // Byte packers (widths 1, 2, 4, 8): `per` values per output byte.

  /**
   * `out[i]` for i < n when the packer reads its `per` values from
   * `in + step * i` (the source uses step 2 for widths 1, 2 and 4, step 1
   * for width 8).
   */
  function AsWrittenBytes(src: seq<nat>, n: nat, w: nat, per: nat, step: nat): (r: seq<u8>)
    requires n == 0 || Offset(n - 1, step) + per <= |src|
    ensures |r| == n
  {
    if n == 0 then []
    else
      var at := Offset(n - 1, step);
      AsWrittenBytes(src, n - 1, w, per, step) + [PackByte(src[at..at + per], w)]
  }

  /** Byte i of the as-written layout packs the `per` values from `step * i`. */
  lemma {:induction false} AsWrittenBytesAt(src: seq<nat>, n: nat, w: nat, per: nat, step: nat, i: nat)
    requires n == 0 || Offset(n - 1, step) + per <= |src|
    requires i < n
    ensures Offset(i, step) + per <= |src|
    ensures AsWrittenBytes(src, n, w, per, step)[i] == PackByte(src[Offset(i, step)..Offset(i, step) + per], w)
    decreases n
  {
    if i < n - 1 {
      OffsetBefore(n - 2, n - 1, step);
      AsWrittenBytesAt(src, n - 1, w, per, step, i);
    }
  }

  /** The intended layout: consecutive groups of `per` values, one byte each. */
  function EncodeBytes(vals: seq<nat>, w: nat, per: nat): seq<u8>
    requires per > 0
    decreases |vals|
  {
    if |vals| < per then [] else [PackByte(vals[..per], w)] + EncodeBytes(vals[per..], w, per)
  }

  function DecodeBytes(bytes: seq<u8>, w: nat, per: nat): seq<nat>
  {
    if bytes == [] then [] else Fields(bytes[0], per, w) + DecodeBytes(bytes[1..], w, per)
  }

  lemma {:induction false} EncodeBytesSize(vals: seq<nat>, n: nat, w: nat, per: nat)
    requires per > 0 && |vals| == Offset(n, per)
    ensures |EncodeBytes(vals, w, per)| == n
    decreases n
  {
    if n > 0 {
      EncodeBytesSize(vals[per..], n - 1, w, per);
    }
  }

  /** Decoding the intended byte layout gives back the values. */
  lemma {:induction false} BytesRoundTrip(vals: seq<nat>, n: nat, w: nat, per: nat)
    requires per > 0 && w <= 8 && Offset(per, w) <= 8
    requires FitsIn(vals, w) && |vals| == Offset(n, per)
    ensures DecodeBytes(EncodeBytes(vals, w, per), w, per) == vals
    decreases n
  {
    if n > 0 {
      var head, tail := vals[..per], vals[per..];
      calc {
        DecodeBytes(EncodeBytes(vals, w, per), w, per);
        DecodeBytes([PackByte(head, w)] + EncodeBytes(tail, w, per), w, per);
        { assert ([PackByte(head, w)] + EncodeBytes(tail, w, per))[1..] == EncodeBytes(tail, w, per); }
        Fields(PackByte(head, w), per, w) + DecodeBytes(EncodeBytes(tail, w, per), w, per);
        { FitsInTake(vals, per, w);
          PackByteIsSum(head, w);
          FieldsOfSum(head, w); }
        head + DecodeBytes(EncodeBytes(tail, w, per), w, per);
        { FitsInDrop(vals, per, w);
          BytesRoundTrip(tail, n - 1, w, per); }
        head + tail;
      }
      assert head + tail == vals;
    }
  }

  /** Reading at step `per` is the intended layout. */
  lemma {:induction false} AsWrittenBytesAtStepPer(src: seq<nat>, n: nat, w: nat, per: nat)
    requires per > 0 && Offset(n, per) <= |src|
    ensures n == 0 || Offset(n - 1, per) + per <= |src|
    ensures AsWrittenBytes(src, n, w, per, per) == EncodeBytes(src[..Offset(n, per)], w, per)
    decreases n
  {
    if n > 0 {
      var m := Offset(n - 1, per);
      assert m + per == Offset(n, per);
      calc {
        AsWrittenBytes(src, n, w, per, per);
        AsWrittenBytes(src, n - 1, w, per, per) + [PackByte(src[m..m + per], w)];
        { AsWrittenBytesAtStepPer(src, n - 1, w, per); }
        EncodeBytes(src[..m], w, per) + [PackByte(src[m..m + per], w)];
        { EncodeBytesSnoc(src[..m], src[m..m + per], n - 1, w, per); }
        EncodeBytes(src[..m] + src[m..m + per], w, per);
        { assert src[..m] + src[m..m + per] == src[..m + per]; }
        EncodeBytes(src[..m + per], w, per);
      }
    }
  }

  /** Appending one more group after whole groups appends its byte. */
  lemma {:induction false} EncodeBytesSnoc(a: seq<nat>, g: seq<nat>, k: nat, w: nat, per: nat)
    requires per > 0 && |a| == Offset(k, per) && |g| == per
    ensures EncodeBytes(a + g, w, per) == EncodeBytes(a, w, per) + [PackByte(g, w)]
    decreases k
  {
    if k == 0 {
      assert (a + g)[..per] == g && (a + g)[per..] == [];
    } else {
      assert (a + g)[..per] == a[..per];
      assert (a + g)[per..] == a[per..] + g;
      EncodeBytesSnoc(a[per..], g, k - 1, w, per);
    }
  }
}

/**
 * The packers of bitpacking.hpp as methods over an output byte array.
 *
 * `in` becomes `src`, the 16-bit values readable from `in` onwards (the
 * grouped packers as written read past `count`, so `src` may be longer than
 * `count`); `out` is the byte array the packer writes from its start.
 * `std::memcpy` of a `std::uint64_t` stores its little-endian bytes.
 */
module Packers {
  import opened Bits
  import opened PackingSpec

  /** `std::memcpy(out + at, &x, 8)`. */
  method Store64(out: array<u8>, at: nat, x: u64)
    requires at + 8 <= out.Length
    modifies out
    ensures out[..] == old(out[..at]) + LeBytes(x) + old(out[at + 8..])
  {
    var bytes := LeBytes(x);
    ghost var before := out[..];
    for k := 0 to 8
      invariant forall j :: 0 <= j < out.Length ==> out[j] == (if at <= j < at + k then bytes[j - at] else before[j])
    {
      out[at + k] := bytes[k];
    }
  }

  /**
   * `bitpack16to7`, `16to6`, `16to5` and `16to3` as written: `count / group`
   * words built from the `group` values at `in + stride * i`, then, when
   * `count % group != 0`, one word built from `in[0 .. count % group)`; every
   * word is stored at `out` itself. Returns the byte count the source returns.
   */
  method BitpackGrouped(src: seq<u16>, count: nat, out: array<u8>, w: nat, group: nat, stride: nat)
    returns (written: nat)
    requires group > 0 && count <= |src| && ReadEnd(count, group, stride) <= |src|
    requires count > 0 ==> out.Length >= 8
    modifies out
    ensures written == GroupedSize(count, group)
    ensures out[..] == GroupedImage(old(out[..]), src, count, w, group, stride)
  {
    var vals: seq<nat> := src;
    var loops, rest := count / group, count % group;
    GroupsInRange(count, group, stride, |src|, out.Length);
    ghost var before := out[..];
    StoreGroups(vals, loops, out, w, group, stride);
    if rest == 0 {
      written := 8 * loops;
      GroupedImageWhole(before, vals, count, w, group, stride);
      if loops > 0 {
        assert out[..] == out[..8] + out[8..];
      }
      return;
    }
    StoreRemainder(vals, rest, out, w);
    written := 8 * loops + 8;
    GroupedImageRest(before, vals, count, w, group, stride, PackWord(vals[..rest], w));
    assert out[..] == out[..8] + out[8..];
  }

  /** The remainder word, built from the first `rest` values, stored at `out`. */
  method StoreRemainder(src: seq<nat>, rest: nat, out: array<u8>, w: nat)
    requires rest <= |src| && out.Length >= 8
    modifies out
    ensures out[..8] == LeBytes(PackWord(src[..rest], w))
    ensures out[8..] == old(out[8..])
  {
    var last := OrShifted(src, rest, w);
    Store64(out, 0, last);
  }

  /** The group loop: word i packs the `group` values at `stride * i` and is stored at `out`. */
  method StoreGroups(src: seq<nat>, loops: nat, out: array<u8>, w: nat, group: nat, stride: nat)
    requires loops == 0 || (Offset(loops - 1, stride) + group <= |src| && out.Length >= 8)
    modifies out
    ensures loops == 0 ==> out[..] == old(out[..])
    ensures loops > 0 ==> out[..8] == LeBytes(PackWord(src[Offset(loops - 1, stride)..Offset(loops - 1, stride) + group], w))
    ensures out.Length >= 8 ==> out[8..] == old(out[8..])
  {
    ghost var before := out[..];
    var at := 0;
    for i := 0 to loops
      invariant at == Offset(i, stride)
      invariant i == 0 || Offset(i - 1, stride) + group <= |src|
      invariant i == 0 ==> out[..] == before
      invariant i > 0 ==> out[..8] == LeBytes(PackWord(src[Offset(i - 1, stride)..Offset(i - 1, stride) + group], w))
      invariant out.Length >= 8 ==> out[8..] == before[8..]
    {
      OffsetMono(i, loops - 1, stride);
      var next := PackWord(src[at..at + group], w);
      Store64(out, 0, next);
      at := at + stride;
    }
  }

  /** The groups the loop reads lie within the first ReadEnd values, and there is a word to store. */
  lemma GroupsInRange(count: nat, group: nat, stride: nat, srcLength: nat, outLength: nat)
    requires group > 0 && ReadEnd(count, group, stride) <= srcLength
    requires count > 0 ==> outLength >= 8
    ensures count / group == 0 || (Offset(count / group - 1, stride) + group <= srcLength && outLength >= 8)
  {
  }

  lemma GroupedImageWhole(before: seq<u8>, src: seq<nat>, count: nat, w: nat, group: nat, stride: nat)
    requires group > 0 && count <= |src| && ReadEnd(count, group, stride) <= |src|
    requires count > 0 ==> |before| >= 8
    requires count % group == 0
    ensures count / group == 0 ==> GroupedImage(before, src, count, w, group, stride) == before
    ensures count / group > 0 ==> Offset(count / group - 1, stride) + group <= |src|
    ensures count / group > 0 ==>
      var at := Offset(count / group - 1, stride);
      GroupedImage(before, src, count, w, group, stride) == LeBytes(PackWord(src[at..at + group], w)) + before[8..]
  {
  }

  lemma GroupedImageRest(before: seq<u8>, src: seq<nat>, count: nat, w: nat, group: nat, stride: nat, x: u64)
    requires group > 0 && count <= |src| && ReadEnd(count, group, stride) <= |src|
    requires |before| >= 8 && count % group != 0
    requires x == PackWord(src[..count % group], w)
    ensures GroupedImage(before, src, count, w, group, stride) == LeBytes(x) + before[8..]
  {
  }

  /** The remainder loop: `final |= (std::uint64_t)in[i] << (i * w)` for i < n. */
  method OrShifted(src: seq<nat>, n: nat, w: nat) returns (last: u64)
    requires n <= |src|
    ensures last == PackWord(src[..n], w)
  {
    last := 0;
    for j := 0 to n
      invariant last == PackWord(src[..j], w)
    {
      var shift := j * w;
      assert shift == Offset(j, w) by { OffsetMul(j, w); }
      assert src[..j + 1][..j] == src[..j];
      assert PackWord(src[..j + 1], w) == Or(last, Shl64(src[j], shift));
      last := Or(last, Shl64(src[j], shift));
    }
  }

  /**
   * `bitpack16to7`, `16to6`, `16to5` and `16to3` as their comments describe
   * them: word i packs values `group * i ..`, is stored at `out + 8 * i`, and
   * the remainder word packs the values after the last whole group.
   */
  method BitpackGroupedFixed(src: seq<u16>, count: nat, out: array<u8>, w: nat, group: nat)
    returns (written: nat)
    requires group > 0 && count <= |src| && GroupedSize(count, group) <= out.Length
    modifies out
    ensures written == GroupedSize(count, group)
    ensures out[..written] == EncodeGrouped(src[..count], w, group)
    ensures out[written..] == old(out[written..])
  {
    var vals: seq<nat> := src;
    var loops, rest := count / group, count % group;
    GroupSplit(count, group);
    var at, pos := StoreGroupsFixed(vals, loops, out, w, group);
    if rest == 0 {
      written := pos;
      assert at == count;
      return;
    }
    var last := OrShifted(vals[at..], rest, w);
    ghost var done := out[..pos];
    Store64(out, pos, last);
    assert out[..pos + 8] == done + out[pos..pos + 8];
    assert vals[at..][..rest] == vals[at..at + rest];
    AppendWord(vals, at, loops, rest, w, group, done, out[..pos + 8]);
    written := pos + 8;
    assert at + rest == count;
  }

  /** The corrected group loop: word i packs values `group * i ..` and goes to `out + 8 * i`. */
  method StoreGroupsFixed(vals: seq<nat>, loops: nat, out: array<u8>, w: nat, group: nat)
    returns (at: nat, pos: nat)
    requires group > 0 && Offset(loops, group) <= |vals| && 8 * loops <= out.Length
    modifies out
    ensures at == Offset(loops, group) && pos == 8 * loops
    ensures out[..8 * loops] == EncodeGrouped(vals[..Offset(loops, group)], w, group)
    ensures out[8 * loops..] == old(out[8 * loops..])
  {
    ghost var before := out[..];
    at, pos := 0, 0;
    for i := 0 to loops
      invariant at == Offset(i, group) && pos == 8 * i && at <= |vals|
      invariant out[..] == EncodeGrouped(vals[..at], w, group) + before[pos..]
    {
      OffsetMono(i + 1, loops, group);
      StoreNextGroup(vals, i, out, w, group, pos, before[pos..]);
      assert before[pos..][8..] == before[pos + 8..];
      at, pos := at + group, pos + 8;
    }
    SplitAt(out[..], EncodeGrouped(vals[..at], w, group), before[pos..]);
  }

  /** One turn of the corrected group loop: the word of group i goes right after the words before it. */
  method StoreNextGroup(vals: seq<nat>, i: nat, out: array<u8>, w: nat, group: nat, pos: nat, ghost rest: seq<u8>)
    requires group > 0 && Offset(i + 1, group) <= |vals| && |rest| >= 8 && pos + |rest| == out.Length
    requires out[..] == EncodeGrouped(vals[..Offset(i, group)], w, group) + rest
    modifies out
    ensures out[..] == EncodeGrouped(vals[..Offset(i + 1, group)], w, group) + rest[8..]
  {
    var at := Offset(i, group);
    var next := PackWord(vals[at..at + group], w);
    ghost var cur := out[..];
    ghost var done := EncodeGrouped(vals[..at], w, group);
    Store64(out, pos, next);
    AfterStore(done, rest, LeBytes(next), cur, out[..]);
    AppendWord(vals, at, i, group, w, group, done, done + LeBytes(next));
  }

  lemma AfterStore(done: seq<u8>, rest: seq<u8>, bytes: seq<u8>, cur: seq<u8>, next: seq<u8>)
    requires cur == done + rest && |bytes| == 8 && |rest| >= 8
    requires next == cur[..|done|] + bytes + cur[|done| + 8..]
    ensures next == (done + bytes) + rest[8..]
  {
    assert cur[..|done|] == done;
    assert cur[|done| + 8..] == rest[8..];
  }

  lemma SplitAt(s: seq<u8>, a: seq<u8>, b: seq<u8>)
    requires s == a + b
    ensures s[..|a|] == a && s[|a|..] == b
  {
  }

  /** After whole groups, a group of n values (a whole one or the remainder) appends its word. */
  lemma AppendWord(vals: seq<nat>, at: nat, i: nat, n: nat, w: nat, group: nat, done: seq<u8>, next: seq<u8>)
    requires 0 < n <= group && at == Offset(i, group) && at + n <= |vals|
    requires done == EncodeGrouped(vals[..at], w, group)
    requires next == done + LeBytes(PackWord(vals[at..at + n], w))
    ensures next == EncodeGrouped(vals[..at + n], w, group)
  {
    var g := vals[at..at + n];
    EncodeGroupedAppend(vals[..at], g, i, w, group);
    EncodeOneGroup(g, w, group);
    assert vals[..at] + g == vals[..at + n];
  }

  /**
   * `bitpack16to4`, `16to2` and `16to1` (and `16to8` with one value per
   * byte): byte i packs the `per` values read from `in + step * i`. The source
   * asserts that count is a multiple of `per`.
   */
  method BitpackBytes(src: seq<u16>, count: nat, out: array<u8>, w: nat, per: nat, step: nat)
    returns (written: nat)
    requires per > 0 && step <= per && count % per == 0 && count <= |src|
    requires count / per <= out.Length
    modifies out
    ensures written == count / per
    ensures written == 0 || Offset(written - 1, step) + per <= |src|
    ensures out[..written] == AsWrittenBytes(src, written, w, per, step)
    ensures out[written..] == old(out[written..])
  {
    var vals: seq<nat> := src;
    var n := count / per;
    BytesInRange(count, per, step);
    ghost var before := out[..];
    var at := 0;
    for i := 0 to n
      invariant at == Offset(i, step)
      invariant i == 0 || Offset(i - 1, step) + per <= |vals|
      invariant out[..i] == AsWrittenBytes(vals, i, w, per, step)
      invariant out[i..] == before[i..]
    {
      OffsetMono(i, n - 1, step);
      out[i] := PackByte(vals[at..at + per], w);
      assert out[..i + 1] == out[..i] + [out[i]];
      at := at + step;
    }
    written := n;
  }

  /** The last byte's group ends within count when step <= per. */
  lemma BytesInRange(count: nat, per: nat, step: nat)
    requires per > 0 && step <= per && count % per == 0
    ensures count / per == 0 || Offset(count / per - 1, step) + per <= count
    ensures Offset(count / per, per) == count
  {
    GroupSplit(count, per);
    if count / per > 0 {
      OffsetStepMono(count / per - 1, step, per);
    }
  }
}

/**
 * The eight packers of bitpacking.hpp with the constants the source gives
 * them, the corrected variants of the ones whose layout differs from the one
 * their comments and tests describe, and the dispatchers `bitpackVanilla`
 * and `bitpackOptimized`.
 */
module Bitpacking {
  import opened Bits
  import opened BitWidth
  import opened PackingSpec
  import opened Packers

  // ---------------------------------------------------------------------
  // The packers as written.

  /** `bitpack16to8`: `out[i] = (uint8_t)in[i]`. */
  method Bitpack16To8(src: seq<u16>, count: nat, out: array<u8>) returns (written: nat)
    requires count <= |src| && count <= out.Length
    modifies out
    ensures written == count
    ensures out[..written] == EncodeBytes(src[..count], 8, 1)
    ensures forall i :: 0 <= i < count ==> out[i] == src[i] % 256
    ensures out[written..] == old(out[written..])
  {
    OffsetMul(count, 1);
    written := BitpackBytes(src, count, out, 8, 1, 1);
    AsWrittenBytesAtStepPer(src, written, 8, 1);
    LowBytes(src[..count], out[..written]);
  }

  /** `bitpack16to7`: groups of 9 read at stride 12. */
  method Bitpack16To7(src: seq<u16>, count: nat, out: array<u8>) returns (written: nat)
    requires count <= |src| && ReadEnd(count, 9, 12) <= |src|
    requires count > 0 ==> out.Length >= 8
    modifies out
    ensures written == GroupedSize(count, 9)
    ensures out[..] == GroupedImage(old(out[..]), src, count, 7, 9, 12)
  {
    written := BitpackGrouped(src, count, out, 7, 9, 12);
  }

  /** `bitpack16to6`: groups of 10 read at stride 12. */
  method Bitpack16To6(src: seq<u16>, count: nat, out: array<u8>) returns (written: nat)
    requires count <= |src| && ReadEnd(count, 10, 12) <= |src|
    requires count > 0 ==> out.Length >= 8
    modifies out
    ensures written == GroupedSize(count, 10)
    ensures out[..] == GroupedImage(old(out[..]), src, count, 6, 10, 12)
  {
    written := BitpackGrouped(src, count, out, 6, 10, 12);
  }

  /** `bitpack16to5`: groups of 12 read at stride 12. */
  method Bitpack16To5(src: seq<u16>, count: nat, out: array<u8>) returns (written: nat)
    requires count <= |src| && ReadEnd(count, 12, 12) <= |src|
    requires count > 0 ==> out.Length >= 8
    modifies out
    ensures written == GroupedSize(count, 12)
    ensures out[..] == GroupedImage(old(out[..]), src, count, 5, 12, 12)
  {
    written := BitpackGrouped(src, count, out, 5, 12, 12);
  }

  /** `bitpack16to4`: two values per byte; asserts an even count. */
  method Bitpack16To4(src: seq<u16>, count: nat, out: array<u8>) returns (written: nat)
    requires count % 2 == 0 && count <= |src| && count / 2 <= out.Length
    modifies out
    ensures written == count / 2
    ensures out[..written] == EncodeBytes(src[..count], 4, 2)
    ensures out[written..] == old(out[written..])
  {
    written := BitpackBytes(src, count, out, 4, 2, 2);
    BytesInRange(count, 2, 2);
    AsWrittenBytesAtStepPer(src, written, 4, 2);
  }

  /** `bitpack16to3`: groups of 21 read at stride 21. */
  method Bitpack16To3(src: seq<u16>, count: nat, out: array<u8>) returns (written: nat)
    requires count <= |src| && ReadEnd(count, 21, 21) <= |src|
    requires count > 0 ==> out.Length >= 8
    modifies out
    ensures written == GroupedSize(count, 21)
    ensures out[..] == GroupedImage(old(out[..]), src, count, 3, 21, 21)
  {
    written := BitpackGrouped(src, count, out, 3, 21, 21);
  }

  /** `bitpack16to2`: byte i packs `in[2i .. 2i + 4)`; asserts count % 4 == 0. */
  method Bitpack16To2(src: seq<u16>, count: nat, out: array<u8>) returns (written: nat)
    requires count % 4 == 0 && count <= |src| && count / 4 <= out.Length
    modifies out
    ensures written == count / 4
    ensures written == 0 || Offset(written - 1, 2) + 4 <= |src|
    ensures out[..written] == AsWrittenBytes(src, written, 2, 4, 2)
    ensures out[written..] == old(out[written..])
  {
    written := BitpackBytes(src, count, out, 2, 4, 2);
  }

  /** `bitpack16to1`: byte i packs `in[2i .. 2i + 8)`; asserts count % 8 == 0. */
  method Bitpack16To1(src: seq<u16>, count: nat, out: array<u8>) returns (written: nat)
    requires count % 8 == 0 && count <= |src| && count / 8 <= out.Length
    modifies out
    ensures written == count / 8
    ensures written == 0 || Offset(written - 1, 2) + 8 <= |src|
    ensures out[..written] == AsWrittenBytes(src, written, 1, 8, 2)
    ensures out[written..] == old(out[written..])
  {
    written := BitpackBytes(src, count, out, 1, 8, 2);
  }

  /** The 8-bit layout keeps the low byte of every value, one byte per value. */
  lemma {:induction false} LowBytes(vals: seq<nat>, bytes: seq<u8>)
    requires bytes == EncodeBytes(vals, 8, 1)
    ensures |bytes| == |vals|
    ensures forall i :: 0 <= i < |vals| ==> bytes[i] == vals[i] % 256
    decreases |vals|
  {
    if vals != [] {
      var one, rest := vals[..1], vals[1..];
      assert one[..|one| - 1] == [];
      assert BytePack(one, 8) == vals[0] % 256 * Pow2(0);
      LowBytes(rest, bytes[1..]);
      forall i | 1 <= i < |vals|
        ensures bytes[i] == vals[i] % 256
      {
        assert bytes[i] == bytes[1..][i - 1] && vals[i] == rest[i - 1];
      }
    }
  }
}

/**
 * The expectations of tests/bitpacking.cpp stated about the model, and the
 * inputs on which the packers as written differ from the layout those tests
 * and the source's comments describe.
 */
module BitpackingExamples {
  import opened Bits
  import opened PackingSpec
  import opened Packers
  import opened Dispatch

  /** A byte of `w`-bit values, computed as the sum of the shifted values. */
  lemma ByteValue(s: seq<nat>, w: nat, b: nat)
    requires FitsIn(s, w) && w <= 8 && Offset(|s|, w) <= 8 && Sum(s, w) == b
    ensures PackByte(s, w) == b
  {
    PackByteIsSum(s, w);
  }

  /** A word of `w`-bit values, computed as the sum of the shifted values. */
  lemma WordValue(s: seq<nat>, w: nat, x: nat)
    requires FitsIn(s, w) && Offset(|s|, w) <= 64 && Sum(s, w) == x
    ensures PackWord(s, w) == x
  {
    PackWordIsSum(s, w);
  }

  /** Sums of literal sequences, one value at a time; `p` is the value's place. */
  lemma SumSnoc(t: seq<nat>, v: nat, w: nat, p: nat)
    requires Pow2(Offset(|t|, w)) == p
    ensures Sum(t + [v], w) == Sum(t, w) + v * p
  {
    assert (t + [v])[..|t|] == t;
  }

  // ---------------------------------------------------------------------
  // The byte packers' tests.

  /** `pack16to1`: {0,1,0,1,0,1,0,1} gives 0b10101010. */
  lemma Pack16To1Example()
    ensures AsWrittenBytes([0, 1, 0, 1, 0, 1, 0, 1], 1, 1, 8, 2) == [0xAA]
  {
    var s1 := [0];
    var s2 := s1 + [1];
    var s3 := s2 + [0];
    var s4 := s3 + [1];
    var s5 := s4 + [0];
    var s6 := s5 + [1];
    var s7 := s6 + [0];
    var s := s7 + [1];
    SumSnoc([], 0, 1, 1);
    assert [] + [0] == s1;
    SumSnoc(s1, 1, 1, 2);
    SumSnoc(s2, 0, 1, 4);
    SumSnoc(s3, 1, 1, 8);
    SumSnoc(s4, 0, 1, 16);
    SumSnoc(s5, 1, 1, 32);
    SumSnoc(s6, 0, 1, 64);
    SumSnoc(s7, 1, 1, 128);
    assert s == [0, 1, 0, 1, 0, 1, 0, 1];
    OffsetMul(8, 1);
    ByteValue(s, 1, 0xAA);
    assert s[0..8] == s;
  }

  /** `pack16to2`: {0,1,2,3} gives 0b11100100. */
  lemma Pack16To2Example()
    ensures AsWrittenBytes([0, 1, 2, 3], 1, 2, 4, 2) == [0xE4]
  {
    var s1 := [0];
    var s2 := s1 + [1];
    var s3 := s2 + [2];
    var s := s3 + [3];
    SumSnoc([], 0, 2, 1);
    assert [] + [0] == s1;
    SumSnoc(s1, 1, 2, 4);
    SumSnoc(s2, 2, 2, 16);
    SumSnoc(s3, 3, 2, 64);
    assert s == [0, 1, 2, 3];
    OffsetMul(4, 2);
    ByteValue(s, 2, 0xE4);
    assert s[0..4] == s;
  }

  /** `pack16to4`: {0b1010,0b1010,0b0101,0b0101} gives {0xAA,0x55}. */
  lemma Pack16To4Example()
    ensures EncodeBytes([10, 10, 5, 5], 4, 2) == [0xAA, 0x55]
  {
    var s := [10, 10, 5, 5];
    SumSnoc([], 10, 4, 1);
    SumSnoc([10], 10, 4, 16);
    SumSnoc([], 5, 4, 1);
    SumSnoc([5], 5, 4, 16);
    assert [] + [10] == [10] && [] + [5] == [5];
    OffsetMul(2, 4);
    ByteValue([10, 10], 4, 0xAA);
    ByteValue([5, 5], 4, 0x55);
    assert s[..2] == [10, 10] && s[2..] == [5, 5];
    assert s[2..][..2] == [5, 5] && s[2..][2..] == [];
  }

  // ---------------------------------------------------------------------
  // The grouped packers' single-word tests: one word, and `out + 8` untouched.

  /** `pack16to3_single`: {0b010,0b101,0b010,0b101} give the word 0b101010101010. */
  lemma Pack16To3Single(before: seq<u8>)
    requires |before| >= 8
    ensures GroupedImage(before, [2, 5, 2, 5], 4, 3, 21, 21) == LeBytes(0xAAA) + before[8..]
  {
    var s := [2, 5, 2, 5];
    Word3Example();
    assert s[..4] == s;
    GroupedImageRest(before, s, 4, 3, 21, 21, 0xAAA);
  }

  lemma Word3Example()
    ensures PackWord([2, 5, 2, 5], 3) == 0xAAA
  {
    var s1 := [2];
    var s2 := s1 + [5];
    var s3 := s2 + [2];
    var s := s3 + [5];
    SumSnoc([], 2, 3, 1);
    assert [] + [2] == s1;
    SumSnoc(s1, 5, 3, 8);
    SumSnoc(s2, 2, 3, 64);
    SumSnoc(s3, 5, 3, 512);
    assert s == [2, 5, 2, 5];
    OffsetMul(4, 3);
    WordValue(s, 3, 0xAAA);
  }

  /** `pack16to5_single`: {0b10101,0b11111} give the word 0b1111110101. */
  lemma Pack16To5Single(before: seq<u8>)
    requires |before| >= 8
    ensures GroupedImage(before, [21, 31], 2, 5, 12, 12) == LeBytes(0x3F5) + before[8..]
  {
    TwoValueWord(21, 31, 5, 32, 0x3F5);
    GroupedImageRest(before, [21, 31], 2, 5, 12, 12, 0x3F5);
  }

  /** `pack16to6_single`: {0b101010,0b111000} give the word 0b111000101010. */
  lemma Pack16To6Single(before: seq<u8>)
    requires |before| >= 8
    ensures GroupedImage(before, [42, 56], 2, 6, 10, 12) == LeBytes(0xE2A) + before[8..]
  {
    TwoValueWord(42, 56, 6, 64, 0xE2A);
    GroupedImageRest(before, [42, 56], 2, 6, 10, 12, 0xE2A);
  }

  /** `pack16to7_single`: {0b1111111,0b1010101} give the word 0b10101011111111. */
  lemma Pack16To7Single(before: seq<u8>)
    requires |before| >= 8
    ensures GroupedImage(before, [127, 85], 2, 7, 9, 12) == LeBytes(0x2AFF) + before[8..]
  {
    TwoValueWord(127, 85, 7, 128, 0x2AFF);
    GroupedImageRest(before, [127, 85], 2, 7, 9, 12, 0x2AFF);
  }

  /** Two `w`-bit values a and b make the word `a | b << w`. */
  lemma TwoValueWord(a: nat, b: nat, w: nat, p: nat, x: nat)
    requires p == Pow2(w) && a < p && b < p && w <= 32 && x == a + b * p
    ensures PackWord([a, b], w) == x
    ensures [a, b][..2] == [a, b]
  {
    SumSnoc([], a, w, 1);
    SumSnoc([a], b, w, p);
    assert [] + [a] == [a];
    OffsetMul(2, w);
    WordValue([a, b], w, x);
  }

  // ---------------------------------------------------------------------
  // Where the packers as written depart from their tests.

  /** One value is a word of its own. */
  lemma OneValueWord(v: nat, w: nat)
    requires v < 0x1_0000_0000_0000_0000
    ensures PackWord([v], w) == v
  {
    assert [v][..0] == [];
  }

  /** The low byte of a small word. */
  lemma LowByteOfWord(x: u64)
    requires x < 256
    ensures LeBytes(x)[0] == x
  {
    Pow2Of8();
  }

  /**
   * `pack16to5_multiple`: 13 values of 0b11011. Every word is stored at
   * `out`, the last one being the remainder word 27, so the bytes of the
   * second word stay as they were, where the test expects 27.
   */
  lemma MultipleGroupsAsWritten(before: seq<u8>)
    requires |before| >= 16
    ensures GroupedImage(before, seq(13, _ => 27), 13, 5, 12, 12) == LeBytes(27) + before[8..]
    ensures EncodeGrouped(seq(13, _ => 27), 5, 12) == LeBytes(PackWord(seq(12, _ => 27), 5)) + LeBytes(27)
    ensures LeBytes(27)[0] == 27
  {
    var src: seq<nat> := seq(13, _ => 27);
    assert src[..1] == [27] && src[..12] == seq(12, _ => 27) && src[12..] == [27];
    OneValueWord(27, 5);
    GroupedImageRest(before, src, 13, 5, 12, 12, 27);
    EncodeOneGroup([27], 5, 12);
    LowByteOfWord(27);
  }

  /**
   * Twelve zeros then a 1, at width 5: the remainder word is built from
   * `in[0]` instead of `in[12]`, so the 1 is never stored.
   */
  lemma RemainderAsWritten(before: seq<u8>)
    requires |before| >= 16
    ensures GroupedImage(before, seq(12, _ => 0) + [1], 13, 5, 12, 12) == LeBytes(0) + before[8..]
    ensures EncodeGrouped(seq(12, _ => 0) + [1], 5, 12) == LeBytes(PackWord(seq(12, _ => 0), 5)) + LeBytes(1)
    ensures LeBytes(1)[0] == 1
  {
    var src: seq<nat> := seq(12, _ => 0) + [1];
    assert src[..1] == [0] && src[..12] == seq(12, _ => 0) && src[12..] == [1];
    OneValueWord(0, 5);
    OneValueWord(1, 5);
    GroupedImageRest(before, src, 13, 5, 12, 12, 0);
    EncodeOneGroup([1], 5, 12);
    LowByteOfWord(1);
  }

  /**
   * With their stride of 12, the 7-bit and 6-bit packers read up to
   * `in[5457)` and `in[4906)` of a 4096-value block.
   */
  lemma StrideOverrun()
    ensures ReadEnd(4096, 9, 12) == 5457 && ReadEnd(4096, 10, 12) == 4906
  {
    OffsetMul(454, 12);
    OffsetMul(408, 12);
  }

  /** Read at a stride equal to the group size, a grouped packer stays within its count. */
  lemma ContiguousReadEnd(count: nat, group: nat)
    requires group > 0
    ensures ReadEnd(count, group, group) <= count
  {
    GroupSplit(count, group);
  }

  /** Four 2-bit values a byte: value k at bit 2k. */
  lemma TwoBitByte(a: nat, b: nat, c: nat, d: nat)
    requires a < 4 && b < 4 && c < 4 && d < 4
    ensures PackByte([a, b, c, d], 2) == a + 4 * b + 16 * c + 64 * d
  {
    var s1 := [a];
    var s2 := s1 + [b];
    var s3 := s2 + [c];
    var s := s3 + [d];
    SumSnoc([], a, 2, 1);
    assert [] + [a] == s1;
    SumSnoc(s1, b, 2, 4);
    SumSnoc(s2, c, 2, 16);
    SumSnoc(s3, d, 2, 64);
    assert s == [a, b, c, d];
    OffsetMul(4, 2);
    ByteValue(s, 2, a + 4 * b + 16 * c + 64 * d);
  }

  /**
   * {0,0,0,0,1,1,1,1} at width 2: byte 1 as written reads `in[2..6)` and
   * is 0x50 where the intended byte, from `in[4..8)`, is 0x55.
   */
  lemma ByteStepAsWritten()
    ensures AsWrittenBytes([0, 0, 0, 0, 1, 1, 1, 1], 2, 2, 4, 2) == [0, 0x50]
    ensures EncodeBytes([0, 0, 0, 0, 1, 1, 1, 1], 2, 4) == [0, 0x55]
  {
    var s := [0, 0, 0, 0, 1, 1, 1, 1];
    TwoBitByte(0, 0, 0, 0);
    TwoBitByte(0, 0, 1, 1);
    TwoBitByte(1, 1, 1, 1);
    assert s[0..4] == [0, 0, 0, 0] && s[2..6] == [0, 0, 1, 1];
    assert s[..4] == [0, 0, 0, 0] && s[4..] == [1, 1, 1, 1];
    assert s[4..][..4] == [1, 1, 1, 1] && s[4..][4..] == [];
  }
}

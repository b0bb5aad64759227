/**
 * The expectations of tests/palettization.cpp as lemmas, and the two
 * places where 0xffff, the fill of unused slots and lanes, is taken for a
 * palette entry.
 */
module PaletteExamples {
  import opened Bits
  import opened Wrappers
  import opened PaletteSpec

  /** `createPalette` of {0, 1, 3, 3, 3, 2} is [0, 1, 3, 2] on both paths. */
  lemma CreatePaletteTest()
    ensures PaletteOf([0, 1, 3, 3, 3, 2], false) == Some([0, 1, 3, 2])
    ensures PaletteOf([0, 1, 3, 3, 3, 2], true) == Some([0, 1, 3, 2])
  {
    var data: seq<u16> := [0, 1, 3, 3, 3, 2];
    DistinctTest(data);
    VectorizedPalette(data);
  }

  lemma DistinctTest(d6: seq<u16>)
    requires d6 == [0, 1, 3, 3, 3, 2]
    ensures Distinct(d6) == [0, 1, 3, 2]
  {
    var d1: seq<u16> := [0];
    var d2 := d1 + [1];
    var d3 := d2 + [3];
    var d4 := d3 + [3];
    var d5 := d4 + [3];
    assert [] + [0] == d1 && d6 == d5 + [2];
    DistinctSnoc([], 0, [], [0]);
    DistinctSnoc(d1, 1, [0], [0, 1]);
    DistinctSnoc(d2, 3, [0, 1], [0, 1, 3]);
    DistinctSnoc(d3, 3, [0, 1, 3], [0, 1, 3]);
    DistinctSnoc(d4, 3, [0, 1, 3], [0, 1, 3]);
    DistinctSnoc(d5, 2, [0, 1, 3], [0, 1, 3, 2]);
  }

  /** One more value extends the distinct values by it. */
  lemma DistinctSnoc(d: seq<u16>, v: u16, e: seq<u16>, e': seq<u16>)
    requires Distinct(d) == e && Extend(e, v) == e'
    ensures Distinct(d + [v]) == e'
  {
    assert (d + [v])[..|d|] == d;
  }

  /**
   * `palettize` of {1, 1, 7, 2, 7, 7, 0, 1} with entries [1, 7, 2, 0] and
   * the other slots 0xffff is {0, 0, 1, 2, 1, 1, 3, 0} on both paths.
   */
  lemma PalettizeTest(pal: seq<u16>, slots: seq<u16>, data: seq<u16>, expected: seq<nat>)
    requires pal == [1, 7, 2, 0] && slots == pal + seq(60, _ => EMPTY)
    requires data == [1, 1, 7, 2, 7, 7, 0, 1] && expected == [0, 0, 1, 2, 1, 1, 3, 0]
    ensures forall i :: 0 <= i < 8 ==> Find(pal, data[i]) == expected[i]
    ensures forall i :: 0 <= i < 8 ==> LaneIndex(slots, data[i]) == expected[i]
  {
    PaletteLookups(pal, slots);
    forall i | 0 <= i < 8
      ensures Find(pal, data[i]) == expected[i] && LaneIndex(slots, data[i]) == expected[i]
    {
      assert data[i] == [1, 1, 7, 2, 7, 7, 0, 1][i] && expected[i] == [0, 0, 1, 2, 1, 1, 3, 0][i];
    }
  }

  lemma PaletteLookups(pal: seq<u16>, slots: seq<u16>)
    requires pal == [1, 7, 2, 0] && slots == pal + seq(60, _ => EMPTY)
    ensures Find(pal, 1) == 0 && Find(pal, 7) == 1 && Find(pal, 2) == 2 && Find(pal, 0) == 3
    ensures LaneIndex(slots, 1) == 0 && LaneIndex(slots, 7) == 1
    ensures LaneIndex(slots, 2) == 2 && LaneIndex(slots, 0) == 3
  {
    assert slots[..4] == pal;
    LaneIndexFind(slots, 4, 1);
    LaneIndexFind(slots, 4, 7);
    LaneIndexFind(slots, 4, 2);
    LaneIndexFind(slots, 4, 0);
  }

  /**
   * 0xffff in the data: the scalar builder lists it, the vectorized builder
   * finds it in a fresh lane and drops it; comparing used lanes only keeps it.
   */
  lemma SentinelBuilder()
    ensures PaletteOf([EMPTY], false) == Some([EMPTY])
    ensures PaletteOf([EMPTY], true) == Some([])
    ensures PaletteOfFixed([EMPTY], true) == Some([EMPTY])
  {
    var data: seq<u16> := [EMPTY];
    assert data[..0] == [];
    assert ScanFrom([], data) == Extend(ScanFrom([], []), EMPTY);
    assert LaneScan([]).slots[0] == EMPTY;
    assert LaneScan(data) == LaneStep(LaneScan([]), EMPTY);
    assert Distinct(data) == [EMPTY];
    assert PaletteOf(data, false) == Some([EMPTY]);
    assert PaletteOf(data, true) == Some([]);
    FixedPalette(data);
  }

  /**
   * The scalar builder turns {0xffff, 1} into entries [0xffff, 1] with the
   * other slots 0xffff. Looking up 0xffff then hits all four registers and
   * or-s 0, 16, 32 and 48 into 48, not the position 0; with unused lanes
   * masked the lookup is 0.
   */
  lemma SentinelLookup(slots: seq<u16>)
    requires slots == [EMPTY, 1] + seq(62, _ => EMPTY)
    ensures PaletteOf([EMPTY, 1], false) == Some([EMPTY, 1])
    ensures LaneIndex(slots, EMPTY) == 48
    ensures Find(slots[..2], EMPTY) == 0 && LaneIndexMasked(slots, 2, EMPTY) == 0
  {
    SentinelPalette([EMPTY, 1]);
    SentinelHits(slots);
    OrOfHits();
    assert slots[..2] == [EMPTY, 1];
    LaneIndexMaskedFind(slots, 2, EMPTY);
  }

  lemma SentinelPalette(data: seq<u16>)
    requires data == [EMPTY, 1]
    ensures PaletteOf(data, false) == Some([EMPTY, 1])
  {
    var d1: seq<u16> := [EMPTY];
    assert data[..1] == d1 && d1[..0] == [];
    assert ScanFrom([], d1) == [EMPTY];
    assert ScanFrom([], data) == Extend([EMPTY], 1);
    assert 1 !in [EMPTY];
    assert Distinct(data) == [EMPTY, 1];
  }

  lemma SentinelHits(slots: seq<u16>)
    requires slots == [EMPTY, 1] + seq(62, _ => EMPTY)
    ensures RegisterHit(slots[..16], EMPTY, 0) == 0
    ensures RegisterHit(slots[16..32], EMPTY, 16) == 16
    ensures RegisterHit(slots[32..48], EMPTY, 32) == 32
    ensures RegisterHit(slots[48..], EMPTY, 48) == 48
  {
    assert slots[..16][0] == EMPTY && slots[16..32][0] == EMPTY;
    assert slots[32..48][0] == EMPTY && slots[48..][0] == EMPTY;
  }

  lemma OrOfHits()
    ensures Or(Or(Or(0, 16), 32), 48) == 48
  {
    assert Or(1, 2) == 3 && Or(2, 4) == 6 && Or(4, 8) == 12;
    assert Or(8, 16) == 24 && Or(16, 32) == 48;
    assert Or(1, 1) == 1 && Or(3, 3) == 3 && Or(6, 6) == 6;
    assert Or(12, 12) == 12 && Or(24, 24) == 24;
  }
}

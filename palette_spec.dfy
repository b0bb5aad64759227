/**
 * What the palette builders and palettizers of palette.hpp compute, as
 * functions on sequences of 16-bit ids.
 *
 * `ScanFrom` is the scalar builder: each value not yet in the palette is
 * appended. `LaneScan` is the vectorized builder: 48 lanes that start as
 * 0xffff (the lanes are set to -1), a value counts as present when any lane
 * equals it, and a 49th new value stops the scan. `Find` is `std::find`,
 * `LaneIndex` the vectorized lookup over four registers of 16 lanes.
 */
module PaletteSpec {
  import opened Bits
  import opened Wrappers

  /** The number of lanes in the three registers of the vectorized builder. */
  const LANES: nat := 48
  /** The capacity of a palette. */
  const CAPACITY: nat := 256
  /** The fill value of unused palette slots and of fresh lanes. */
  const EMPTY: u16 := 0xffff

  predicate NoDup(s: seq<u16>)
  {
    forall i, j :: 0 <= i < j < |s| ==> s[i] != s[j]
  }

  // ---------------------------------------------------------------------
  // The scalar builder.

  /** Appends v unless it is already in the palette. */
  function Extend(pal: seq<u16>, v: u16): (r: seq<u16>)
    ensures v in r
  {
    if v in pal then pal else pal + [v]
  }

  /** The palette after scanning `data` from left to right, starting from `pal`. */
  function ScanFrom(pal: seq<u16>, data: seq<u16>): seq<u16>
    decreases |data|
  {
    if data == [] then pal else Extend(ScanFrom(pal, data[..|data| - 1]), data[|data| - 1])
  }

  /** The distinct values of `data` in order of first occurrence. */
  function Distinct(data: seq<u16>): seq<u16>
  {
    ScanFrom([], data)
  }

  /** The palette has no duplicates, holds the seed and the data and nothing else, and starts with the seed. */
  lemma {:induction false} ScanFromFacts(pal: seq<u16>, data: seq<u16>)
    requires NoDup(pal)
    ensures NoDup(ScanFrom(pal, data))
    ensures forall v :: v in ScanFrom(pal, data) <==> v in pal || v in data
    ensures |pal| <= |ScanFrom(pal, data)| && ScanFrom(pal, data)[..|pal|] == pal
    decreases |data|
  {
    if data != [] {
      var init := data[..|data| - 1];
      ScanFromFacts(pal, init);
      assert data == init + [data[|data| - 1]];
    }
  }

  /** `Distinct` lists each value of the data once. */
  lemma DistinctFacts(data: seq<u16>)
    ensures NoDup(Distinct(data))
    ensures forall v :: v in Distinct(data) <==> v in data
  {
    ScanFromFacts([], data);
  }

  /** Scanning a longer prefix only appends to the palette. */
  lemma {:induction false} ScanFromGrows(pal: seq<u16>, data: seq<u16>, i: nat)
    requires i <= |data|
    ensures |ScanFrom(pal, data[..i])| <= |ScanFrom(pal, data)|
    ensures ScanFrom(pal, data)[..|ScanFrom(pal, data[..i])|] == ScanFrom(pal, data[..i])
    decreases |data|
  {
    if i < |data| {
      var init := data[..|data| - 1];
      assert data[..i] == init[..i];
      ScanFromGrows(pal, init, i);
    } else {
      assert data[..i] == data;
    }
  }

  /**
   * The builders look at each run of equal values once (`do ++i; while
   * (data[i] == value)`): scanning the whole run adds the same as its first value.
   */
  lemma {:induction false} ScanRun(pal: seq<u16>, data: seq<u16>, start: nat, i: nat)
    requires start < i <= |data|
    requires forall k :: start <= k < i ==> data[k] == data[start]
    ensures ScanFrom(pal, data[..i]) == Extend(ScanFrom(pal, data[..start]), data[start])
    decreases i
  {
    assert data[..i][..i - 1] == data[..i - 1];
    if i - 1 > start {
      ScanRun(pal, data, start, i - 1);
    }
  }

  /**
   * What a scan adds to a seed: the distinct values of the data that the
   * seed does not hold, in order of first occurrence.
   */
  function Without(s: seq<u16>, pal: seq<u16>): seq<u16>
    decreases |s|
  {
    if s == [] then []
    else
      var last := s[|s| - 1];
      Without(s[..|s| - 1], pal) + (if last in pal then [] else [last])
  }

  /** `Without` keeps exactly the elements of s that pal lacks. */
  lemma {:induction false} WithoutHas(s: seq<u16>, pal: seq<u16>, v: u16)
    ensures v in Without(s, pal) <==> v in s && v !in pal
    decreases |s|
  {
    if s != [] {
      WithoutHas(s[..|s| - 1], pal, v);
      assert s == s[..|s| - 1] + [s[|s| - 1]];
    }
  }

  /** Scanning from a seed appends to it the new distinct values of the data. */
  lemma {:induction false} ScanFromSeed(pal: seq<u16>, data: seq<u16>)
    ensures ScanFrom(pal, data) == pal + Without(Distinct(data), pal)
    decreases |data|
  {
    if data != [] {
      var init, v := data[..|data| - 1], data[|data| - 1];
      ScanFromSeed(pal, init);
      var d := Distinct(init);
      var w := Without(d, pal);
      WithoutHas(d, pal, v);
      assert ScanFrom(pal, data) == Extend(pal + w, v);
      assert Distinct(data) == Extend(d, v);
      if v in d {
        assert v in pal + w;
      } else {
        var d' := d + [v];
        assert d'[..|d|] == d && d'[|d|] == v;
        if v in pal {
          assert Without(d', pal) == w;
        } else {
          assert v !in pal + w;
          assert Without(d', pal) == w + [v];
        }
      }
    }
  }

  /** Removing a prefix of a list without duplicates leaves the rest of it. */
  lemma {:induction false} WithoutPrefix(s: seq<u16>, k: nat)
    requires NoDup(s) && k <= |s|
    ensures Without(s, s[..k]) == s[k..]
    decreases |s|
  {
    if |s| > k {
      var n := |s| - 1;
      var init := s[..n];
      NoDupPrefix(s, n);
      assert init[..k] == s[..k];
      WithoutPrefix(init, k);
      WithoutStep(s, k);
      assert s[k..] == init[k..] + [s[n]];
    } else {
      assert s[..k] == s;
      WithoutCovered(s, s);
    }
  }

  lemma NoDupPrefix(s: seq<u16>, n: nat)
    requires NoDup(s) && n <= |s|
    ensures NoDup(s[..n])
  {
  }

  /** The last element of a list without duplicates is not in an earlier prefix. */
  lemma WithoutStep(s: seq<u16>, k: nat)
    requires NoDup(s) && k < |s|
    ensures Without(s, s[..k]) == Without(s[..|s| - 1], s[..k]) + [s[|s| - 1]]
  {
    var last := s[|s| - 1];
    forall j | 0 <= j < k
      ensures s[..k][j] != last
    {
      assert s[..k][j] == s[j];
    }
  }

  /** Nothing is left of a list whose every element is removed. */
  lemma {:induction false} WithoutCovered(t: seq<u16>, pal: seq<u16>)
    requires forall k :: 0 <= k < |t| ==> t[k] in pal
    ensures Without(t, pal) == []
    decreases |t|
  {
    if t != [] {
      WithoutCovered(t[..|t| - 1], pal);
    }
  }

  /**
   * `createPalette` rescans the whole input seeded with a prefix of its
   * distinct values (the 48 the vectorized builder found): the result is
   * the scalar palette.
   */
  lemma SeededRescan(data: seq<u16>, k: nat)
    requires k <= |Distinct(data)|
    ensures ScanFrom(Distinct(data)[..k], data) == Distinct(data)
  {
    var d := Distinct(data);
    ScanFromSeed(d[..k], data);
    DistinctFacts(data);
    WithoutPrefix(d, k);
    assert d[..k] + d[k..] == d;
  }

  // ---------------------------------------------------------------------
  // The vectorized builder.

  /** The three registers as 48 lanes, how many are used, and whether a 49th value was seen. */
  datatype Lanes = Lanes(slots: seq<u16>, used: nat, full: bool)

  predicate LanesValid(st: Lanes)
  {
    |st.slots| == LANES && st.used <= LANES && (st.full ==> st.used == LANES) &&
    forall k :: st.used <= k < LANES ==> st.slots[k] == EMPTY
  }

  /**
   * One run of the vectorized builder: a value equal to any lane is taken as
   * present; otherwise it goes into the next lane, or, with all 48 lanes used,
   * the scan stops.
   */
  function LaneStep(st: Lanes, v: u16): (r: Lanes)
    requires LanesValid(st)
    ensures LanesValid(r)
  {
    if st.full || v in st.slots then st
    else if st.used == LANES then st.(full := true)
    else Lanes(st.slots[st.used := v], st.used + 1, false)
  }

  function LaneScan(data: seq<u16>): (r: Lanes)
    ensures LanesValid(r)
    decreases |data|
  {
    if data == [] then Lanes(seq(LANES, _ => EMPTY), 0, false)
    else LaneStep(LaneScan(data[..|data| - 1]), data[|data| - 1])
  }

  /** The vectorized builder also looks at each run once. */
  lemma {:induction false} LaneScanRun(data: seq<u16>, start: nat, i: nat)
    requires start < i <= |data|
    requires forall k :: start <= k < i ==> data[k] == data[start]
    ensures LaneScan(data[..i]) == LaneStep(LaneScan(data[..start]), data[start])
    decreases i
  {
    assert data[..i][..i - 1] == data[..i - 1];
    if i - 1 > start {
      LaneScanRun(data, start, i - 1);
      LaneStepTwice(LaneScan(data[..start]), data[start]);
    }
  }

  /** Once a 49th value has been seen the vectorized builder stops: later data changes nothing. */
  lemma {:induction false} LaneScanFullStays(data: seq<u16>, i: nat, j: nat)
    requires i <= j <= |data| && LaneScan(data[..i]).full
    ensures LaneScan(data[..j]) == LaneScan(data[..i])
    decreases j
  {
    if j > i {
      assert data[..j][..j - 1] == data[..j - 1];
      LaneScanFullStays(data, i, j - 1);
    }
  }

  /** The vectorized builder never takes 0xffff into a lane: it matches a fresh lane first. */
  lemma {:induction false} LaneScanNoEmpty(data: seq<u16>)
    ensures EMPTY !in LaneScan(data).slots[..LaneScan(data).used]
    decreases |data|
  {
    if data != [] {
      var init, v := data[..|data| - 1], data[|data| - 1];
      LaneScanNoEmpty(init);
      var st := LaneScan(init);
      if !st.full && v !in st.slots && st.used < LANES {
        assert st.slots[st.used] == EMPTY;
        assert st.slots[st.used := v][..st.used + 1] == st.slots[..st.used] + [v];
      }
    }
  }

  /** A value just taken is present. */
  lemma LaneStepTwice(st: Lanes, v: u16)
    requires LanesValid(st)
    ensures LaneStep(LaneStep(st, v), v) == LaneStep(st, v)
  {
    if !st.full && v !in st.slots && st.used < LANES {
      assert st.slots[st.used := v][st.used] == v;
    }
  }

  /** The lanes of a scan of data without 0xffff: the distinct values, then fresh lanes. */
  predicate LanesHold(st: Lanes, d: seq<u16>)
  {
    LanesValid(st) &&
    st.used == (if |d| < LANES then |d| else LANES) &&
    (st.full <==> |d| > LANES) &&
    st.slots == d[..st.used] + seq(LANES - st.used, _ => EMPTY)
  }

  /**
   * On data without 0xffff the vectorized builder holds the first 48
   * distinct values in order, and stops exactly when there is a 49th.
   */
  lemma {:induction false} LaneScanAgrees(data: seq<u16>)
    requires forall k :: 0 <= k < |data| ==> data[k] != EMPTY
    ensures LanesHold(LaneScan(data), Distinct(data))
    decreases |data|
  {
    if data == [] {
    } else {
      var init, v := data[..|data| - 1], data[|data| - 1];
      LaneScanAgrees(init);
      var st, d := LaneScan(init), Distinct(init);
      DistinctFacts(init);
      if st.full {
        assert (d + [v])[..LANES] == d[..LANES];
      } else {
        assert v in st.slots <==> v in d;
        if v !in d {
          var d' := d + [v];
          assert d'[..|d|] == d;
          if st.used < LANES {
            assert st.slots[st.used := v] == d'[..st.used + 1] + seq(LANES - st.used - 1, _ => EMPTY);
          }
        }
      }
    }
  }

  /**
   * The lanes as meant: a value counts as present only when it is in a used
   * lane, so 0xffff is a value like any other.
   */
  function LaneStepFixed(st: Lanes, v: u16): (r: Lanes)
    requires LanesValid(st)
    ensures LanesValid(r)
  {
    if st.full || v in st.slots[..st.used] then st
    else if st.used == LANES then st.(full := true)
    else Lanes(st.slots[st.used := v], st.used + 1, false)
  }

  function LaneScanFixed(data: seq<u16>): (r: Lanes)
    ensures LanesValid(r)
    decreases |data|
  {
    if data == [] then Lanes(seq(LANES, _ => EMPTY), 0, false)
    else LaneStepFixed(LaneScanFixed(data[..|data| - 1]), data[|data| - 1])
  }

  /** With used lanes only, the vectorized builder agrees with the scalar one on every input. */
  lemma {:induction false} LaneScanFixedAgrees(data: seq<u16>)
    ensures
      var st, d := LaneScanFixed(data), Distinct(data);
      st.used == (if |d| < LANES then |d| else LANES) &&
      (st.full <==> |d| > LANES) &&
      st.slots[..st.used] == d[..st.used]
    decreases |data|
  {
    if data != [] {
      var init, v := data[..|data| - 1], data[|data| - 1];
      LaneScanFixedAgrees(init);
      var st, d := LaneScanFixed(init), Distinct(init);
      if st.full {
        assert (d + [v])[..LANES] == d[..LANES];
      } else {
        assert st.slots[..st.used] == d;
        if v !in d {
          var d' := d + [v];
          if st.used < LANES {
            assert st.slots[st.used := v][..st.used + 1] == d';
          } else {
            assert d'[..LANES] == d;
          }
        }
      }
    }
  }

  // ---------------------------------------------------------------------
  // Lookups.

  /** `std::find`: the first position holding v, or |pal| when there is none. */
  function Find(pal: seq<u16>, v: u16): (r: nat)
    ensures r <= |pal|
    ensures r < |pal| ==> pal[r] == v
    ensures forall k :: 0 <= k < r ==> pal[k] != v
    decreases |pal|
  {
    if pal == [] then 0 else if pal[0] == v then 0 else 1 + Find(pal[1..], v)
  }

  /**
   * One register's lookup: `mask == 0 ? 0 : __builtin_ctz(mask) / 2 + base`,
   * i.e. the lowest lane equal to v plus the register's first index, or 0.
   */
  function RegisterHit(reg: seq<u16>, v: u16, base: nat): nat
  {
    if v in reg then Find(reg, v) + base else 0
  }

  /** `palettizeVectorized`'s index: the four register lookups or-ed together. */
  function LaneIndex(slots: seq<u16>, v: u16): nat
    requires |slots| == 64
  {
    Or(Or(Or(RegisterHit(slots[..16], v, 0), RegisterHit(slots[16..32], v, 16)),
          RegisterHit(slots[32..48], v, 32)),
       RegisterHit(slots[48..], v, 48))
  }

  /** When v is in no lane the lookup is 0, which is a valid index. */
  lemma LaneIndexMiss(slots: seq<u16>, v: u16)
    requires |slots| == 64 && v !in slots
    ensures LaneIndex(slots, v) == 0
  {
    assert slots == slots[..16] + slots[16..32] + slots[32..48] + slots[48..];
  }

  /** When v sits in exactly one lane p, the or-ed lookup is p. */
  lemma LaneIndexAt(slots: seq<u16>, v: u16, p: nat)
    requires |slots| == 64 && p < 64 && slots[p] == v
    requires v !in slots[..p] && v !in slots[p + 1..]
    ensures LaneIndex(slots, v) == p
  {
    RegisterHitAt(slots, v, p, 0, 16);
    RegisterHitAt(slots, v, p, 16, 32);
    RegisterHitAt(slots, v, p, 32, 48);
    RegisterHitAt(slots, v, p, 48, 64);
    assert slots[48..64] == slots[48..];
  }

  /** With v only in lane p, register [lo, hi) reports p if it holds p and 0 otherwise. */
  lemma RegisterHitAt(slots: seq<u16>, v: u16, p: nat, lo: nat, hi: nat)
    requires p < |slots| && slots[p] == v && v !in slots[..p] && v !in slots[p + 1..]
    requires lo <= hi <= |slots|
    ensures RegisterHit(slots[lo..hi], v, lo) == if lo <= p < hi then p else 0
  {
    var reg := slots[lo..hi];
    if lo <= p < hi {
      forall k | 0 <= k < p - lo
        ensures reg[k] != v
      {
        assert reg[k] == slots[..p][lo + k];
      }
      assert reg[p - lo] == v;
    }
  }

  /**
   * The lookup with the lanes at or beyond `size` masked out (a lane that
   * is not in use never matches), as the palettizer evidently means it.
   */
  function LaneIndexMasked(slots: seq<u16>, size: nat, v: u16): nat
    requires |slots| == 64
  {
    LaneIndex(seq(64, k requires 0 <= k < 64 => if k < size then slots[k] else (v + 1) % 0x1_0000), v)
  }

  /** With unused lanes masked, the vectorized lookup is `std::find` on every palette of at most 64 entries. */
  lemma LaneIndexMaskedFind(slots: seq<u16>, size: nat, v: u16)
    requires |slots| == 64 && size <= 64 && NoDup(slots[..size]) && v in slots[..size]
    ensures LaneIndexMasked(slots, size, v) == Find(slots[..size], v)
  {
    var m := seq(64, k requires 0 <= k < 64 => if k < size then slots[k] else (v + 1) % 0x1_0000);
    var pal := slots[..size];
    var p := Find(pal, v);
    assert m[p] == v;
    forall k | 0 <= k < p
      ensures m[..p][k] != v
    {
      assert m[k] == pal[k];
    }
    var rest := m[p + 1..];
    forall k | 0 <= k < |rest|
      ensures rest[k] != v
    {
      assert rest[k] == m[p + 1 + k];
      if p + 1 + k < size {
        assert m[p + 1 + k] == pal[p + 1 + k] && pal[p] == v;
      }
    }
    LaneIndexAt(m, v, p);
  }

  /**
   * Without masking, the lookup is `std::find` when v is in the palette and
   * is not 0xffff, the fill of the unused slots.
   */
  lemma LaneIndexFind(slots: seq<u16>, size: nat, v: u16)
    requires |slots| == 64 && size <= 64 && NoDup(slots[..size])
    requires forall k :: size <= k < 64 ==> slots[k] == EMPTY
    requires v in slots[..size] && v != EMPTY
    ensures LaneIndex(slots, v) == Find(slots[..size], v)
  {
    var pal := slots[..size];
    var p := Find(pal, v);
    forall k | 0 <= k < p
      ensures slots[..p][k] != v
    {
      assert slots[k] == pal[k];
    }
    var rest := slots[p + 1..];
    forall k | 0 <= k < |rest|
      ensures rest[k] != v
    {
      assert rest[k] == slots[p + 1 + k];
      if p + 1 + k < size {
        assert slots[p + 1 + k] == pal[p + 1 + k] && pal[p] == v;
      }
    }
    LaneIndexAt(slots, v, p);
  }

  // ---------------------------------------------------------------------
  // What `createPalette` returns.

  /**
   * The entries `createPalette` returns, or None when the scalar pass hits
   * `assert(size < 256)`: the lanes when the vectorized builder succeeds,
   * otherwise the scalar scan seeded with the 48 lanes (vectorized) or with
   * nothing.
   */
  function PaletteOf(data: seq<u16>, vectorized: bool): (r: Option<seq<u16>>)
    ensures r.Some? ==> |r.value| <= CAPACITY
  {
    var st := LaneScan(data);
    if vectorized && !st.full then Some(st.slots[..st.used])
    else
      var p := ScanFrom(if vectorized then st.slots else [], data);
      if |p| > CAPACITY then None else Some(p)
  }

  /**
   * The scalar palette lists every value of the data exactly once, and
   * fails exactly when there are more than 256 distinct values.
   */
  lemma ScalarPalette(data: seq<u16>)
    ensures PaletteOf(data, false).Some? <==> |Distinct(data)| <= CAPACITY
    ensures PaletteOf(data, false).Some? ==>
      var p := PaletteOf(data, false).value;
      NoDup(p) && forall v :: v in p <==> v in data
  {
    DistinctFacts(data);
  }

  /**
   * On data without 0xffff the vectorized path, including its fallback that
   * rescans from the 48 lanes, returns the scalar palette.
   */
  lemma VectorizedPalette(data: seq<u16>)
    requires forall k :: 0 <= k < |data| ==> data[k] != EMPTY
    ensures PaletteOf(data, true) == PaletteOf(data, false)
  {
    LaneScanAgrees(data);
    var st, d := LaneScan(data), Distinct(data);
    if st.full {
      assert st.slots == d[..LANES];
      SeededRescan(data, LANES);
    } else {
      assert d[..st.used] == d;
    }
  }

  /** `PaletteOf` with the builder that compares used lanes only. */
  function PaletteOfFixed(data: seq<u16>, vectorized: bool): (r: Option<seq<u16>>)
    ensures r.Some? ==> |r.value| <= CAPACITY
  {
    var st := LaneScanFixed(data);
    if vectorized && !st.full then Some(st.slots[..st.used])
    else
      var p := ScanFrom(if vectorized then st.slots else [], data);
      if |p| > CAPACITY then None else Some(p)
  }

  /** With used lanes only, both paths return the scalar palette on every input. */
  lemma FixedPalette(data: seq<u16>)
    ensures PaletteOfFixed(data, true) == PaletteOf(data, false)
    ensures PaletteOfFixed(data, false) == PaletteOf(data, false)
  {
    LaneScanFixedAgrees(data);
    var st, d := LaneScanFixed(data), Distinct(data);
    if st.full {
      assert st.slots == st.slots[..LANES];
      SeededRescan(data, LANES);
    } else {
      assert d[..st.used] == d;
    }
  }

  /**
   * From `createPalette` to `palettize`: on data without 0xffff, with a
   * palette of at most 64 entries filled up with 0xffff, the vectorized
   * lookup of every value of the data is its `std::find` position.
   */
  lemma VectorizedLookup(data: seq<u16>, vectorized: bool, slots: seq<u16>)
    requires forall k :: 0 <= k < |data| ==> data[k] != EMPTY
    requires PaletteOf(data, vectorized).Some?
    requires
      var p := PaletteOf(data, vectorized).value;
      |p| <= 64 && slots == p + seq(64 - |p|, _ => EMPTY)
    ensures
      var p := PaletteOf(data, vectorized).value;
      forall i :: 0 <= i < |data| ==> LaneIndex(slots, data[i]) == Find(p, data[i])
  {
    VectorizedPalette(data);
    ScalarPalette(data);
    var p := PaletteOf(data, vectorized).value;
    assert slots[..|p|] == p;
    forall i | 0 <= i < |data|
      ensures LaneIndex(slots, data[i]) == Find(p, data[i])
    {
      LaneIndexFind(slots, |p|, data[i]);
    }
  }
}

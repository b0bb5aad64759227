/**
 * The palette of palette.hpp and the four operations on it: the vectorized
 * builder `tryCreatePaletteVectorized`, `createPalette`, and the palettizers
 * `palettizeVectorized` and `palettize`. Each is proved against the
 * functions of PaletteSpec. The AVX2 registers are sequences of lanes; a
 * register store is a copy of the lanes into an array.
 */
module Palettes {
  import opened Bits
  import opened PaletteSpec

  /** `struct Palette`: a count and 256 slots. */
  class Palette {
    var size: nat
    var values: array<u16>

    predicate Valid()
      reads this
    {
      values.Length == CAPACITY && size <= CAPACITY
    }

    /** A fresh palette is empty and all 256 slots hold 0xffff. */
    constructor()
      ensures Valid() && fresh(values)
      ensures size == 0 && values[..] == seq(CAPACITY, _ => EMPTY)
    {
      size := 0;
      values := new u16[CAPACITY](_ => EMPTY);
    }
  }

  /** `_mm256_storeu_si256` of the three lane registers to the front of `a`. */
  method StoreLanes(lanes: seq<u16>, a: array<u16>)
    requires |lanes| == LANES <= a.Length
    modifies a
    ensures a[..LANES] == lanes
    ensures a[LANES..] == old(a[LANES..])
  {
    forall k | 0 <= k < LANES {
      a[k] := lanes[k];
    }
  }

  /**
   * `tryCreatePaletteVectorized`: the lanes of `LaneScan` of the data go to
   * the first 48 slots and their count to `size`; the result is false
   * exactly when a 49th value was seen.
   */
  method TryCreatePaletteVectorized(data: seq<u16>, count: nat, out: Palette) returns (ok: bool)
    requires count <= |data| && out.Valid()
    modifies out, out.values
    ensures out.Valid() && out.values == old(out.values)
    ensures ok == !LaneScan(data[..count]).full
    ensures out.size == LaneScan(data[..count]).used
    ensures out.values[..LANES] == LaneScan(data[..count]).slots
    ensures out.values[LANES..] == old(out.values[LANES..])
  {
    var used: nat := 0;
    var lanes: seq<u16> := seq(LANES, _ => EMPTY);
    var i := 0;
    assert data[..0] == [];
    while i != count
      invariant i <= count
      invariant LaneScan(data[..i]) == Lanes(lanes, used, false)
      invariant out.values == old(out.values) && out.values[..] == old(out.values[..])
    {
      var value := data[i];
      var start := i;
      i := i + 1;
      while i != count && data[i] == value
        invariant start < i <= count
        invariant forall k :: start <= k < i ==> data[k] == value
      {
        i := i + 1;
      }
      LaneScanRun(data, start, i);
      if value in lanes {
        continue;
      }
      if used == LANES {
        StoreLanes(lanes, out.values);
        out.size := used;
        LaneScanFullStays(data, i, count);
        return false;
      }
      // The new entry goes in through a round trip of the lanes in memory.
      var buf := new u16[LANES];
      StoreLanes(lanes, buf);
      buf[used] := value;
      used := used + 1;
      lanes := buf[..];
    }
    StoreLanes(lanes, out.values);
    out.size := used;
    return true;
  }

  /** `std::find` over the first `n` slots. */
  method FindIndex(a: array<u16>, n: nat, v: u16) returns (r: nat)
    requires n <= a.Length
    ensures r == Find(a[..n], v)
  {
    r := 0;
    while r < n && a[r] != v
      invariant r <= n
      invariant forall k :: 0 <= k < r ==> a[k] != v
    {
      r := r + 1;
    }
  }

  /**
   * `createPalette`: the palette holds `PaletteOf` the data followed by
   * 0xffff; `ok` is false when the scalar pass would break
   * `assert(size < 256)`.
   */
  method CreatePalette(data: seq<u16>, count: nat, vectorized: bool) returns (palette: Palette, ok: bool)
    requires count <= |data|
    ensures fresh(palette) && fresh(palette.values) && palette.Valid()
    ensures ok <==> PaletteOf(data[..count], vectorized).Some?
    ensures ok ==> palette.values[..palette.size] == PaletteOf(data[..count], vectorized).value
    ensures ok ==> forall k :: palette.size <= k < CAPACITY ==> palette.values[k] == EMPTY
  {
    palette := new Palette();
    if vectorized {
      ok := TryCreatePaletteVectorized(data, count, palette);
      if ok {
        ghost var st := LaneScan(data[..count]);
        assert palette.values[..palette.size] == st.slots[..st.used];
        forall k | palette.size <= k < CAPACITY
          ensures palette.values[k] == EMPTY
        {
          if k < LANES {
            assert palette.values[k] == st.slots[k];
          } else {
            assert palette.values[k] == palette.values[LANES..][k - LANES];
          }
        }
        return;
      }
    }
    var size: nat;
    size, ok := ScalarPass(data, count, palette.values, palette.size);
    if ok {
      palette.size := size;
    }
  }

  /**
   * The scalar loop of `createPalette`, from the `size` entries already in
   * `p`: the entries become `ScanFrom` of them over the data, and `ok` is
   * false when that needs more than 256 slots.
   */
  method ScalarPass(data: seq<u16>, count: nat, p: array<u16>, size0: nat) returns (size: nat, ok: bool)
    requires count <= |data| && p.Length == CAPACITY && size0 <= CAPACITY
    requires forall k :: size0 <= k < CAPACITY ==> p[k] == EMPTY
    modifies p
    ensures ok <==> |ScanFrom(old(p[..size0]), data[..count])| <= CAPACITY
    ensures ok ==> size <= CAPACITY && p[..size] == ScanFrom(old(p[..size0]), data[..count])
    ensures ok ==> forall k :: size <= k < CAPACITY ==> p[k] == EMPTY
  {
    ghost var seed := p[..size0];
    size := size0;
    assert data[..0] == [];
    var i := 0;
    while i != count
      invariant i <= count && size <= CAPACITY
      invariant p[..size] == ScanFrom(seed, data[..i])
      invariant forall k :: size <= k < CAPACITY ==> p[k] == EMPTY
    {
      var value := data[i];
      var start := i;
      i := i + 1;
      while i != count && data[i] == value
        invariant start < i <= count
        invariant forall k :: start <= k < i ==> data[k] == value
      {
        i := i + 1;
      }
      ScanRun(seed, data, start, i);
      var it := FindIndex(p, size, value);
      if it != size {
        continue;
      }
      if size == CAPACITY {
        assert |ScanFrom(seed, data[..i])| > CAPACITY;
        assert data[..count][..i] == data[..i];
        ScanFromGrows(seed, data[..count], i);
        return size, false;
      }
      p[size] := value;
      size := size + 1;
    }
    ok := true;
  }

  /** `|` of the four register lookups stays below 64. */
  lemma LaneIndexBound(slots: seq<u16>, v: u16)
    requires |slots| == 64
    ensures LaneIndex(slots, v) < 64
  {
    assert Pow2(6) == 64;
    var a, b := RegisterHit(slots[..16], v, 0), RegisterHit(slots[16..32], v, 16);
    var c, d := RegisterHit(slots[32..48], v, 32), RegisterHit(slots[48..], v, 48);
    OrBound(a, b, 6);
    OrBound(Or(a, b), c, 6);
    OrBound(Or(Or(a, b), c), d, 6);
  }

  /**
   * `palettizeVectorized`: every output is the or-ed lookup of the value in
   * the first 64 slots; nothing at or beyond `out + count` is written.
   */
  method PalettizeVectorized(palette: Palette, src: seq<u16>, count: nat, out: array<u16>)
    requires palette.Valid() && count <= |src| && count <= out.Length && out != palette.values
    modifies out
    ensures forall i :: 0 <= i < count ==> out[i] == LaneIndex(palette.values[..64], src[i])
    ensures out[count..] == old(out[count..])
  {
    var slots := palette.values[..64];
    var i := 0;
    while i != count
      invariant i <= count
      invariant forall k :: 0 <= k < i ==> out[k] == LaneIndex(slots, src[k])
      invariant forall k :: i <= k < out.Length ==> out[k] == old(out[k])
    {
      var value := src[i];
      var idx0 := RegisterHit(slots[..16], value, 0);
      var idx1 := RegisterHit(slots[16..32], value, 16);
      var idx2 := RegisterHit(slots[32..48], value, 32);
      var idx3 := RegisterHit(slots[48..], value, 48);
      LaneIndexBound(slots, value);
      var index: u16 := Or(Or(Or(idx0, idx1), idx2), idx3);
      out[i] := index;
      i := i + 1;
      while i != count && src[i] == value
        invariant i <= count
        invariant forall k :: 0 <= k < i ==> out[k] == LaneIndex(slots, src[k])
        invariant forall k :: i <= k < out.Length ==> out[k] == old(out[k])
      {
        out[i] := index;
        i := i + 1;
      }
    }
  }

  /**
   * `palettize`: with `vectorize` and at most 64 entries, the vectorized
   * lookup; otherwise each output is the `std::find` position of the value
   * among the entries, and `ok` is false when a value is missing, where
   * the source breaks `assert(it != end)`.
   */
  method Palettize(palette: Palette, src: seq<u16>, count: nat, out: array<u16>, vectorize: bool)
    returns (ok: bool)
    requires palette.Valid() && count <= |src| && count <= out.Length && out != palette.values
    modifies out
    ensures vectorize && palette.size <= 64 ==>
      ok && forall i :: 0 <= i < count ==> out[i] == LaneIndex(palette.values[..64], src[i])
    ensures !(vectorize && palette.size <= 64) ==>
      (ok <==> forall i :: 0 <= i < count ==> src[i] in palette.values[..palette.size])
    ensures !(vectorize && palette.size <= 64) && ok ==>
      forall i :: 0 <= i < count ==> out[i] == Find(palette.values[..palette.size], src[i])
    ensures ok ==> out[count..] == old(out[count..])
  {
    if vectorize && palette.size <= 64 {
      PalettizeVectorized(palette, src, count, out);
      return true;
    }
    var entries := palette.values[..palette.size];
    var i := 0;
    while i != count
      invariant i <= count
      invariant forall k :: 0 <= k < i ==> src[k] in entries && out[k] == Find(entries, src[k])
      invariant forall k :: i <= k < out.Length ==> out[k] == old(out[k])
    {
      var value := src[i];
      var it := FindIndex(palette.values, palette.size, value);
      if it == palette.size {
        return false;
      }
      var index: u16 := it;
      out[i] := index;
      i := i + 1;
      while i != count && src[i] == value
        invariant i <= count
        invariant forall k :: 0 <= k < i ==> src[k] in entries && out[k] == Find(entries, src[k])
        invariant forall k :: i <= k < out.Length ==> out[k] == old(out[k])
      {
        out[i] := index;
        i := i + 1;
      }
    }
    return true;
  }
}

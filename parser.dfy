/**
 * The region parser of parser.hpp over the bytes of a region file.
 *
 * Addresses are byte offsets into the file. A region file starts with a
 * 1024-bit chunk bitmap (bit i % 8 of byte i / 8 for chunk i); the records
 * of the present chunks follow it back to back. A chunk record is a 16-bit
 * little-endian section mask followed by 4096 16-bit values for each set
 * bit, lowest bit first, so a section takes 8192 bytes. The parser never
 * reads a section: it records where each one starts.
 */
module Parser {
  import opened Bits
  import opened Wrappers

  const BLOCKS_PER_SECTION: nat := 16 * 16 * 16
  const SECTIONS_PER_CHUNK: nat := 16
  const CHUNKS_PER_REGION: nat := 32 * 32
  /** The chunk bitmap that the chunk pointer skips. */
  const BITMAP_BYTES: nat := CHUNKS_PER_REGION / 8

  /** `struct Chunk`: for each section, the address of its values when present. */
  datatype Chunk = Chunk(sections: seq<Option<nat>>)

  /** `struct Region`: for each chunk, the chunk when present. */
  datatype Region = Region(chunks: seq<Option<Chunk>>)

  // ---------------------------------------------------------------------
  // Chunks.

  /** The number of set bits of x below bit n. */
  function PopCount(x: nat, n: nat): (r: nat)
    ensures r <= n
  {
    if n == 0 then 0 else PopCount(x, n - 1) + (if Bit(x, n - 1) then 1 else 0)
  }

  /** The section mask at address `pos`. */
  function Mask(mem: seq<u8>, pos: nat): u16
    requires pos + 2 <= |mem|
  {
    LoadLe16(mem[pos], mem[pos + 1])
  }

  /** Where the chunk at `pos` ends: past its mask and one section per set bit. */
  function ChunkEnd(mask: u16, pos: nat): nat
  {
    pos + 2 + 8192 * PopCount(mask, SECTIONS_PER_CHUNK)
  }

  /**
   * `chunk` is the chunk whose mask is at `pos`: section i is present
   * exactly when bit i of the mask is set, and the section of the j-th set
   * bit starts j sections after the mask.
   */
  predicate ChunkAt(chunk: Chunk, mem: seq<u8>, pos: nat)
  {
    pos + 2 <= |mem| &&
    |chunk.sections| == SECTIONS_PER_CHUNK &&
    forall i :: 0 <= i < SECTIONS_PER_CHUNK ==>
      (chunk.sections[i].Some? <==> Bit(Mask(mem, pos), i)) &&
      (chunk.sections[i].Some? ==>
        chunk.sections[i].value == pos + 2 + 8192 * PopCount(Mask(mem, pos), i))
  }

  /** `parseChunk`: reads the mask at `pos` and returns the chunk and the address past it. */
  method ParseChunk(mem: seq<u8>, pos: nat) returns (chunk: Chunk, next: nat)
    requires pos + 2 <= |mem|
    ensures ChunkAt(chunk, mem, pos)
    ensures next == ChunkEnd(Mask(mem, pos), pos)
  {
    var bitmask := Mask(mem, pos);
    var data := pos + 2;
    var sections: seq<Option<nat>> := seq(SECTIONS_PER_CHUNK, _ => None);
    for i := 0 to SECTIONS_PER_CHUNK
      invariant |sections| == SECTIONS_PER_CHUNK
      invariant data == pos + 2 + 8192 * PopCount(bitmask, i)
      invariant forall k :: 0 <= k < i ==>
        (sections[k].Some? <==> Bit(bitmask, k)) &&
        (sections[k].Some? ==> sections[k].value == pos + 2 + 8192 * PopCount(bitmask, k))
      invariant forall k :: i <= k < SECTIONS_PER_CHUNK ==> sections[k].None?
    {
      assert PopCount(bitmask, i + 1) == PopCount(bitmask, i) + (if Bit(bitmask, i) then 1 else 0);
      if Bit(bitmask, i) {
        sections := sections[i := Some(data)];
        data := data + 2 * BLOCKS_PER_SECTION;
      }
    }
    chunk := Chunk(sections);
    next := data;
  }

  /** Counting set bits over a longer prefix counts at least as many. */
  lemma {:induction false} PopCountMono(x: nat, i: nat, j: nat)
    requires i <= j
    ensures PopCount(x, i) <= PopCount(x, j)
    decreases j
  {
    if i < j {
      PopCountMono(x, i, j - 1);
    }
  }

  /** A set bit i is counted by every prefix longer than i. */
  lemma PopCountHit(x: nat, i: nat, j: nat)
    requires i < j && Bit(x, i)
    ensures PopCount(x, i) + 1 <= PopCount(x, j)
  {
    PopCountMono(x, i + 1, j);
  }

  /** Clear bits add nothing to the count. */
  lemma {:induction false} PopCountClear(x: nat, i: nat, j: nat)
    requires i <= j && forall k :: i <= k < j ==> !Bit(x, k)
    ensures PopCount(x, j) == PopCount(x, i)
    decreases j
  {
    if i < j {
      PopCountClear(x, i, j - 1);
    }
  }

  /**
   * The present sections of a chunk lie between its mask and its end, in
   * the order of their bits, and no two of them overlap.
   */
  lemma SectionsLayout(chunk: Chunk, mem: seq<u8>, pos: nat)
    requires ChunkAt(chunk, mem, pos)
    ensures forall i :: 0 <= i < SECTIONS_PER_CHUNK && chunk.sections[i].Some? ==>
      pos + 2 <= chunk.sections[i].value &&
      chunk.sections[i].value + 8192 <= ChunkEnd(Mask(mem, pos), pos)
    ensures forall i, j :: 0 <= i < j < SECTIONS_PER_CHUNK ==>
      (chunk.sections[i].Some? && chunk.sections[j].Some? ==>
        chunk.sections[i].value + 8192 <= chunk.sections[j].value)
  {
    forall i | 0 <= i < SECTIONS_PER_CHUNK && chunk.sections[i].Some?
      ensures chunk.sections[i].value + 8192 <= ChunkEnd(Mask(mem, pos), pos)
    {
      SectionApart(chunk, mem, pos, i, SECTIONS_PER_CHUNK);
    }
    forall i, j | 0 <= i < j < SECTIONS_PER_CHUNK && chunk.sections[i].Some? && chunk.sections[j].Some?
      ensures chunk.sections[i].value + 8192 <= chunk.sections[j].value
    {
      SectionApart(chunk, mem, pos, i, j);
    }
  }

  /** A present section i ends no later than the address of the sections from bit j on. */
  lemma SectionApart(chunk: Chunk, mem: seq<u8>, pos: nat, i: nat, j: nat)
    requires ChunkAt(chunk, mem, pos) && i < j <= SECTIONS_PER_CHUNK && chunk.sections[i].Some?
    ensures chunk.sections[i].value + 8192 <= pos + 2 + 8192 * PopCount(Mask(mem, pos), j)
  {
    var mask := Mask(mem, pos);
    assert Bit(mask, i);
    PopCountHit(mask, i, j);
  }

  // ---------------------------------------------------------------------
  // Regions.

  /** Chunk i is present: bit i % 8 of byte i / 8 of the bitmap is set. */
  predicate Present(mem: seq<u8>, i: nat)
    requires i < CHUNKS_PER_REGION && BITMAP_BYTES <= |mem|
  {
    Bit(mem[i / 8], i % 8)
  }

  /**
   * The chunk pointer after the first n chunk slots: right after the bitmap,
   * then past each present chunk. None when the mask of a present chunk
   * lies beyond the end of the file.
   */
  function ChunkPos(mem: seq<u8>, n: nat): Option<nat>
    requires n <= CHUNKS_PER_REGION && BITMAP_BYTES <= |mem|
  {
    if n == 0 then Some(BITMAP_BYTES)
    else
      match ChunkPos(mem, n - 1)
      case None => None
      case Some(p) =>
        if !Present(mem, n - 1) then Some(p)
        else if p + 2 > |mem| then None
        else Some(ChunkEnd(Mask(mem, p), p))
  }

  /** A chunk pointer that exists after n slots exists after fewer, at an address no larger. */
  lemma {:induction false} ChunkPosPrefix(mem: seq<u8>, m: nat, n: nat)
    requires m <= n <= CHUNKS_PER_REGION && BITMAP_BYTES <= |mem|
    requires ChunkPos(mem, n).Some?
    ensures ChunkPos(mem, m).Some? && ChunkPos(mem, m).value <= ChunkPos(mem, n).value
    decreases n
  {
    if m < n {
      ChunkPosPrefix(mem, m, n - 1);
    }
  }

  /**
   * Slot i of a parsed region: a chunk exactly when bit i of the bitmap is
   * set, and then the chunk whose mask is at `ChunkPos(mem, i)`.
   */
  predicate SlotParsed(slot: Option<Chunk>, mem: seq<u8>, i: nat)
    requires i < CHUNKS_PER_REGION && BITMAP_BYTES <= |mem|
  {
    (slot.Some? <==> Present(mem, i)) &&
    (slot.Some? ==> ChunkPos(mem, i).Some? && ChunkAt(slot.value, mem, ChunkPos(mem, i).value))
  }

  /**
   * `parseRegion`: every slot is parsed as `SlotParsed` says. The file must
   * hold the bitmap and the mask of every present chunk.
   */
  method ParseRegion(mem: seq<u8>) returns (region: Region)
    requires BITMAP_BYTES <= |mem| && ChunkPos(mem, CHUNKS_PER_REGION).Some?
    ensures |region.chunks| == CHUNKS_PER_REGION
    ensures forall i :: 0 <= i < CHUNKS_PER_REGION ==> SlotParsed(region.chunks[i], mem, i)
  {
    var chunks: seq<Option<Chunk>> := seq(CHUNKS_PER_REGION, _ => None);
    var chunkPtr := BITMAP_BYTES;
    for i := 0 to CHUNKS_PER_REGION
      invariant |chunks| == CHUNKS_PER_REGION
      invariant ChunkPos(mem, i) == Some(chunkPtr)
      invariant forall k :: 0 <= k < i ==> SlotParsed(chunks[k], mem, k)
      invariant forall k :: i <= k < CHUNKS_PER_REGION ==> chunks[k].None?
    {
      ChunkPosPrefix(mem, i + 1, CHUNKS_PER_REGION);
      var slot;
      slot, chunkPtr := ParseSlot(mem, i, chunkPtr);
      chunks := chunks[i := slot];
    }
    region := Region(chunks);
  }

  /** One turn of the loop of `parseRegion`: slot i, and the chunk pointer after it. */
  method ParseSlot(mem: seq<u8>, i: nat, chunkPtr: nat) returns (slot: Option<Chunk>, next: nat)
    requires i < CHUNKS_PER_REGION && BITMAP_BYTES <= |mem|
    requires ChunkPos(mem, i) == Some(chunkPtr) && ChunkPos(mem, i + 1).Some?
    ensures SlotParsed(slot, mem, i) && ChunkPos(mem, i + 1) == Some(next)
  {
    if Bit(mem[i / 8], i % 8) {
      var chunk;
      chunk, next := ParseChunk(mem, chunkPtr);
      slot := Some(chunk);
    } else {
      slot, next := None, chunkPtr;
    }
  }

  /**
   * Chunk records follow the bitmap in index order without overlapping:
   * a present chunk ends at or before the pointer of every later slot, and
   * the next present chunk starts exactly where it ends.
   */
  lemma {:induction false} ChunksInOrder(mem: seq<u8>, i: nat, j: nat)
    requires i < j <= CHUNKS_PER_REGION && BITMAP_BYTES <= |mem|
    requires ChunkPos(mem, j).Some? && Present(mem, i)
    ensures ChunkPos(mem, i).Some? && ChunkPos(mem, i).value + 2 <= |mem|
    ensures ChunkEnd(Mask(mem, ChunkPos(mem, i).value), ChunkPos(mem, i).value) <= ChunkPos(mem, j).value
    ensures (forall k :: i < k < j ==> !Present(mem, k)) ==>
      ChunkPos(mem, j).value == ChunkEnd(Mask(mem, ChunkPos(mem, i).value), ChunkPos(mem, i).value)
    decreases j
  {
    ChunkPosPrefix(mem, i + 1, j);
    if j > i + 1 {
      ChunksInOrder(mem, i, j - 1);
    }
  }

  /** A record whose mask has bits 0 and 2 set: two sections, back to back after the mask. */
  lemma ChunkExample(chunk: Chunk, mem: seq<u8>, pos: nat)
    requires ChunkAt(chunk, mem, pos) && mem[pos] == 5 && mem[pos + 1] == 0
    ensures chunk.sections[0] == Some(pos + 2)
    ensures chunk.sections[1] == None
    ensures chunk.sections[2] == Some(pos + 2 + 8192)
    ensures ChunkEnd(Mask(mem, pos), pos) == pos + 2 + 2 * 8192
  {
    assert Mask(mem, pos) == 5;
    FiveBits();
    assert PopCount(5, 2) == 1;
    PopCountClear(5, 3, SECTIONS_PER_CHUNK);
  }

  /** 5 has bits 0 and 2 set and no other. */
  lemma FiveBits()
    ensures Bit(5, 0) && !Bit(5, 1) && Bit(5, 2)
    ensures forall i :: 3 <= i ==> !Bit(5, i)
  {
    assert Pow2(1) == 2 && Pow2(2) == 4;
    forall i | 3 <= i
      ensures !Bit(5, i)
    {
      Pow2Mono(3, i);
      assert Pow2(3) == 8;
    }
  }
}

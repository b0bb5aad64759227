# Palettes, bit packing and region parsing of minecraft-compression-benchmarks

The benchmark stores each 16×16×16 section of a Minecraft chunk as 4096
16-bit block ids. It compresses a section in three steps. First it builds the
section's palette: the distinct ids, in order of first occurrence. Then it
replaces every id by its index in that palette. Finally it packs the indices
with `ceillog2(distincts)` bits each. The sections come from a region file,
which starts with a 1024-bit chunk bitmap. The present chunks follow it, each
a 16-bit section mask and one 4096-value section per set bit.

This project models those three headers in Dafny.

- `bitpacking.hpp`: the eight packers `bitpack16to1` … `bitpack16to8`,
  `ceillog2`, and the two dispatchers `bitpackVanilla` and `bitpackOptimized`.
- `palette.hpp`: `struct Palette`, the AVX2 builder
  `tryCreatePaletteVectorized`, `createPalette`, and the palettizers
  `palettizeVectorized` and `palettize`.
- `parser.hpp`: the constants, `Chunk`, `Region`, `parseChunk` and
  `parseRegion`.

How the model is laid out:

- **Numbers.** They are mathematical integers restricted to `u8`, `u16` and
  `u64`. C's `|` is `Bits.Or`. A `std::memcpy` of a 64-bit word stores its
  eight little-endian bytes, because the host is taken to be little-endian.
- **Packers.** Each packer is a method that writes an `array<u8>` from its
  start, as the source's `out` pointer does. Its input is a sequence `src`
  of the values readable from `in` onwards. `src` may be longer than
  `count`, because some packers read past it.
  - Two layouts are defined side by side. The layout the code produces is
    `GroupedImage` for the 64-bit packers and `AsWrittenBytes` for the byte
    packers.
  - The layout the comments and tests describe is `EncodeGrouped` and
    `EncodeBytes`. Each has a decoder and a proved round trip.
  - The two differ (see Findings). The packers as written are proved equal to
    the first layout. Corrected packers and dispatchers are proved equal to
    the second.
- **Palettes.** `Palette` is a class with `size` and a 256-slot array.
  - The builders are proved against two functions: the scalar scan
    `ScanFrom`/`Distinct` and the lane scan `LaneScan`. `LaneScan` models the
    three 16-lane registers as 48 lanes that start at 0xffff.
  - The lookups are proved against `Find` (`std::find`) and `LaneIndex`. For
    `LaneIndex`, each register reports the lowest equal lane plus its base,
    and the four reports are or-ed together.
- **Parser.** The parser works on the bytes of the file. Addresses are byte
  offsets into it. A parsed chunk records where each present section's
  values start.

## Model

| member | source | states |
|---|---|---|
| BitWidth.FloorLog2 | bitpacking.hpp:256 | `63 - clz(y)` is the position r of the highest set bit: 2^r <= y < 2^(r+1) |
| BitWidth.TwiceMinusOne | bitpacking.hpp:256 | `2 * x - 1` in 64-bit arithmetic is odd and below 2^64. It is the exact 2x-1 whenever x <= 2^63 |
| BitWidth.CeilLog2 | bitpacking.hpp:253-257 | for 1 <= x <= 2^63, x <= 2^r and 2^(r-1) < x: the least width whose range holds x values |
| BitWidth.CeilLog2Least | bitpacking.hpp:253-257 | any width b with x <= 2^b is at least `ceillog2(x)` |
| BitWidth.BelowFits | bitpacking.hpp:253-257 | every palette index below x fits in `ceillog2(x)` bits |
| BitWidth.CeilLog2SmallExamples | bitpacking.hpp:253-257 | `ceillog2` of 1, 2, 3, 4 is 0, 1, 2, 2 |
| BitWidth.CeilLog2LargeExamples | bitpacking.hpp:253-257 | `ceillog2` of 16, 17, 256 is 4, 5, 8 |
| BitWidth.CeilLog2Range | bitpacking.hpp:262-264 | for 1..256 values the width is at most 8. It is 0 exactly for one value and at most 4 exactly for up to 16 values |
| BitWidth.CeilLog2Wide | bitpacking.hpp:297-302 | more than 256 values need more than 8 bits, the `default:` case |
| PackingSpec.PackWord | bitpacking.hpp:38-40 | the or of shifted values in a `std::uint64_t` stays below 2^64 |
| PackingSpec.PackWordIsSum | bitpacking.hpp:38-40 | when each value fits its width and the group fits the word, the or is the sum of the shifted values: no field overlaps another |
| PackingSpec.BytePackIsSum | bitpacking.hpp:224 | the or of truncated, shifted values is their sum when each fits its width |
| PackingSpec.PackByteIsSum | bitpacking.hpp:246 | a group whose fields end by bit 8 is stored unchanged in its byte |
| PackingSpec.GroupedImageKeepsTail | bitpacking.hpp:42-53 | whatever the count, a 64-bit packer as written changes no byte at or beyond `out + 8` |
| PackingSpec.EncodeGroupedSize | bitpacking.hpp:45-54 | the intended grouped layout takes the byte count the packers return: 8 per whole group plus 8 for a remainder |
| PackingSpec.WordRoundTrip | bitpacking.hpp:20 | a word of at most `group` w-bit values reads back, field by field, as those values |
| PackingSpec.GroupedRoundTrip | bitpacking.hpp:18-55 | decoding the intended grouped layout gives back every sequence of values that fit the width |
| PackingSpec.AsWrittenSingleWord | bitpacking.hpp:42-53 | with at most one group of input, the packer as written stores the intended word at `out` and nothing else |
| PackingSpec.AsWrittenBytesAt | bitpacking.hpp:236-246 | byte i as written packs the `per` values read from `in + step * i` |
| PackingSpec.EncodeBytesSize | bitpacking.hpp:142-155 | n groups of `per` values make n bytes |
| PackingSpec.BytesRoundTrip | bitpacking.hpp:142-155 | decoding the intended byte layout gives back every sequence of values that fit the width |
| PackingSpec.AsWrittenBytesAtStepPer | bitpacking.hpp:147-152 | reading at a step equal to the values per byte, as the 4-bit packer does, is the intended byte layout |
| Packers.Store64 | bitpacking.hpp:42 | `memcpy` of a word puts its eight little-endian bytes at `out + at` and changes nothing else |
| Packers.BitpackGrouped | bitpacking.hpp:18-55 | the 64-bit packers as written return 8 bytes per whole group plus 8 for a remainder. The buffer becomes `GroupedImage`: only the last word is kept, at `out` |
| Packers.StoreGroups | bitpacking.hpp:25-43 | the group loop leaves at `out` the word of the last group, read from `stride * (loops - 1)`, and leaves `out + 8` onwards alone |
| Packers.StoreRemainder | bitpacking.hpp:48-53 | the remainder word packs `in[0 .. rest)` and is stored at `out` |
| Packers.OrShifted | bitpacking.hpp:50-51 | the remainder loop's `final` is `PackWord` of the first n values |
| Packers.BitpackGroupedFixed | bitpacking.hpp:18-55 | with word i stored at `out + 8 * i` and the remainder taken after the last group, the bytes written are `EncodeGrouped` of the input. The size is the source's, and nothing beyond it changes |
| Packers.StoreGroupsFixed | bitpacking.hpp:25-43 | the corrected group loop writes the intended words of the whole groups back to back and nothing after them |
| Packers.StoreNextGroup | bitpacking.hpp:27-42 | one corrected turn appends the next group's word right after the earlier ones |
| Packers.BitpackBytes | bitpacking.hpp:142-155 | the byte packers return count / per. Byte i packs the values read from `step * i`, and nothing beyond the returned size changes |
| Bitpacking.Bitpack16To8 | bitpacking.hpp:9-15 | returns count. Byte i is the low byte of `in[i]`, which is the intended one-value-a-byte layout. The rest of `out` is unchanged |
| Bitpacking.Bitpack16To7 | bitpacking.hpp:18-55 | groups of 9 read at stride 12: the size the source returns and the image as written |
| Bitpacking.Bitpack16To6 | bitpacking.hpp:58-96 | groups of 10 read at stride 12: the size the source returns and the image as written |
| Bitpacking.Bitpack16To5 | bitpacking.hpp:99-139 | groups of 12 read at stride 12: the size the source returns and the image as written |
| Bitpacking.Bitpack16To4 | bitpacking.hpp:142-155 | returns count / 2, and the bytes are the intended 4-bit layout |
| Bitpacking.Bitpack16To3 | bitpacking.hpp:158-210 | groups of 21 read at stride 21: the size the source returns and the image as written |
| Bitpacking.Bitpack16To2 | bitpacking.hpp:213-228 | returns count / 4. Byte i packs `in[2i .. 2i + 4)`, as written |
| Bitpacking.Bitpack16To1 | bitpacking.hpp:231-250 | returns count / 8. Byte i packs `in[2i .. 2i + 8)`, as written |
| Bitpacking.LowBytes | bitpacking.hpp:11-12 | the 8-bit layout is one byte per value: its low byte |
| Dispatch.IntendedLayout | bitpacking.hpp:20 | a width has an intended layout exactly when it has a packer |
| Dispatch.IntendedLayoutSound | bitpacking.hpp:9-250 | every width 0..8 has a packer of that width. Its intended layout packs values without overlap into a byte or a 64-bit word |
| Dispatch.AsWrittenContiguous | bitpacking.hpp:9-250 | the packers for widths 1, 2, 6 and 7, and only those, do not read their values contiguously |
| Dispatch.OptimizedDispatch | bitpacking.hpp:281-303 | `bitpackOptimized` succeeds exactly for 1..256 distinct values. It stores nothing exactly for one value, and otherwise packs `ceillog2(distincts)` bits a value |
| Dispatch.VanillaDispatch | bitpacking.hpp:260-278 | `bitpackVanilla` succeeds exactly for 1..256 values. It sends 1..16 values to the 4-bit packer and 17..256 values to the packer of their width, 5..8 |
| Dispatch.BitpackOptimized | bitpacking.hpp:281-303 | returns a size exactly when a packer exists for the width and leaves `out` alone otherwise. The size and buffer are those of that packer as written |
| Dispatch.PackBytesWidth | bitpacking.hpp:288-295 | the byte packers selected by width: their size and image as written |
| Dispatch.PackGroupedWidth | bitpacking.hpp:290-294 | the 64-bit packers selected by width: their size and image as written |
| Dispatch.BitpackVanilla | bitpacking.hpp:260-278 | the same as `BitpackOptimized`, with widths 0..4 sent to the 4-bit packer |
| Dispatch.AsWrittenBlock | schemes/opt1.hpp:53-56 | with the callers' 4096 values and 4096-byte buffer, every packer stays within its input except those for widths 6 and 7 |
| Dispatch.IntendedBlock | bitpacking.hpp:9-250 | with contiguous reads every width fits a 4096-value block and a 4096-byte buffer |
| Dispatch.LayoutRoundTrip | bitpacking.hpp:9-250 | every intended layout decodes back to values that fit its width, in the byte count the packers return |
| Dispatch.PackContiguous | bitpacking.hpp:9-250 | the corrected packers write exactly the intended layout and nothing beyond it |
| Dispatch.BitpackOptimizedFixed | bitpacking.hpp:281-303 | the corrected `bitpackOptimized` makes the same choice and failure, and writes the intended layout |
| Dispatch.BitpackVanillaFixed | bitpacking.hpp:260-278 | the corrected `bitpackVanilla` makes the same choice and failure, and writes the intended layout |
| Dispatch.OptimizedRoundTrip | bitpacking.hpp:281-303 | palette indices below `distincts`, packed by the corrected `bitpackOptimized`, decode back to themselves |
| Dispatch.VanillaRoundTrip | bitpacking.hpp:260-278 | palette indices below `distincts`, packed by the corrected `bitpackVanilla`, decode back to themselves |
| BitpackingExamples.Pack16To1Example | tests/bitpacking.cpp:7-15 | {0,1,0,1,0,1,0,1} packs to 0b10101010 |
| BitpackingExamples.Pack16To2Example | tests/bitpacking.cpp:17-25 | {0,1,2,3} packs to 0b11100100 |
| BitpackingExamples.Pack16To3Single | tests/bitpacking.cpp:27-35 | {2,5,2,5} at 3 bits give the word 0xAAA, and bytes from `out + 8` stay as they were |
| BitpackingExamples.Pack16To4Example | tests/bitpacking.cpp:52-61 | {10,10,5,5} packs to {0xAA,0x55} |
| BitpackingExamples.Pack16To5Single | tests/bitpacking.cpp:63-71 | {21,31} at 5 bits give the word 0x3F5 |
| BitpackingExamples.Pack16To6Single | tests/bitpacking.cpp:88-96 | {42,56} at 6 bits give the word 0xE2A |
| BitpackingExamples.Pack16To7Single | tests/bitpacking.cpp:113-121 | {127,85} at 7 bits give the word 0x2AFF |
| BitpackingExamples.MultipleGroupsAsWritten | tests/bitpacking.cpp:73-86 | 13 values of 27 at 5 bits: as written, only the remainder word 27 is at `out` and bytes 8.. are unchanged. The intended layout has a second word whose low byte is 27 |
| BitpackingExamples.RemainderAsWritten | bitpacking.hpp:134-135 | twelve zeros then a 1 at 5 bits: as written, the remainder word is 0. The intended second word is 1 |
| BitpackingExamples.StrideOverrun | bitpacking.hpp:27 | for 4096 values the 7-bit packer reads up to index 5456 and the 6-bit packer up to index 4905 |
| BitpackingExamples.ContiguousReadEnd | bitpacking.hpp:167 | with the stride equal to the group, the group loop reads only within count |
| BitpackingExamples.ByteStepAsWritten | bitpacking.hpp:220-224 | {0,0,0,0,1,1,1,1} at 2 bits is {0, 0x50} as written and {0, 0x55} as intended |
| PaletteSpec.ScanFromFacts | palette.hpp:86-102 | the scalar scan keeps its seed as a prefix and never repeats a value. It holds exactly the seed's values and the data's values |
| PaletteSpec.DistinctFacts | palette.hpp:86-102 | the palette of the data lists each value of the data once and nothing else |
| PaletteSpec.ScanFromGrows | palette.hpp:86-102 | scanning further only appends entries |
| PaletteSpec.ScanRun | palette.hpp:88-91 | skipping the rest of a run of equal values changes nothing |
| PaletteSpec.ScanFromSeed | palette.hpp:83-102 | a scan from a seed appends to it the distinct values of the data that the seed lacks, in order |
| PaletteSpec.SeededRescan | palette.hpp:80-102 | rescanning the whole input from a prefix of its distinct values yields its distinct values |
| PaletteSpec.LaneStep | palette.hpp:37-65 | one run of the vectorized builder keeps the lane invariant: at most 48 used lanes, unused lanes 0xffff, `full` only with all 48 used |
| PaletteSpec.LaneScan | palette.hpp:25-66 | the vectorized scan keeps the lane invariant |
| PaletteSpec.LaneScanRun | palette.hpp:34-35 | the vectorized builder also gains nothing from the rest of a run |
| PaletteSpec.LaneScanFullStays | palette.hpp:47-55 | once a 49th value is seen, the rest of the data changes nothing |
| PaletteSpec.LaneScanNoEmpty | palette.hpp:37-45 | no used lane ever holds 0xffff |
| PaletteSpec.LaneScanAgrees | palette.hpp:22-73 | on data without 0xffff, the lanes hold the first 48 distinct values in order, with the rest 0xffff. The scan gives up exactly when there are more than 48 |
| PaletteSpec.LaneStepFixed | palette.hpp:37-45 | the corrected step compares used lanes only and keeps the lane invariant |
| PaletteSpec.LaneScanFixed | palette.hpp:30-66 | the corrected scan keeps the lane invariant |
| PaletteSpec.LaneScanFixedAgrees | palette.hpp:37-45 | comparing used lanes only, the lanes hold the first 48 distinct values of any data, and the scan gives up exactly past 48 |
| PaletteSpec.Find | palette.hpp:152-155 | `std::find`: the first position holding v, or the size when no entry holds v |
| PaletteSpec.LaneIndexMiss | palette.hpp:127-132 | a value in no lane has index 0 |
| PaletteSpec.LaneIndexAt | palette.hpp:127-132 | a value in exactly one lane p has index p |
| PaletteSpec.LaneIndexMaskedFind | palette.hpp:127-132 | with lanes beyond the palette masked out, the vectorized index is the `std::find` position for every value of a duplicate-free palette of at most 64 entries |
| PaletteSpec.LaneIndexFind | palette.hpp:108-137 | unmasked, the vectorized index is the `std::find` position when the palette is filled with 0xffff and the value is in it and is not 0xffff |
| PaletteSpec.PaletteOf | palette.hpp:75-106 | what `createPalette` returns never has more than 256 entries |
| PaletteSpec.ScalarPalette | palette.hpp:86-102 | the scalar `createPalette` succeeds exactly for at most 256 distinct values, and then lists each value of the data exactly once |
| PaletteSpec.VectorizedPalette | palette.hpp:75-106 | on data without 0xffff, the vectorized `createPalette` returns what the scalar one returns. This holds with or without the fallback |
| PaletteSpec.PaletteOfFixed | palette.hpp:75-106 | the corrected builder's palette never has more than 256 entries |
| PaletteSpec.FixedPalette | palette.hpp:75-106 | comparing used lanes only, both paths return the scalar palette on every input |
| PaletteSpec.VectorizedLookup | palette.hpp:139-143 | on data without 0xffff, the vectorized lookup in a palette of at most 64 entries gives every value its `std::find` position |
| Palettes.Palette.constructor | palette.hpp:10-19 | a new palette has size 0 and all 256 slots 0xffff |
| Palettes.StoreLanes | palette.hpp:68-70 | storing the three registers sets slots 0..47 and nothing else |
| Palettes.TryCreatePaletteVectorized | palette.hpp:22-73 | returns false exactly when a 49th value is seen. Size and slots 0..47 are those of the lane scan, and slots 48.. are unchanged |
| Palettes.FindIndex | palette.hpp:93 | `std::find` over the first n slots |
| Palettes.CreatePalette | palette.hpp:75-106 | succeeds exactly when `PaletteOf` does. Then the entries are `PaletteOf` and the other slots hold 0xffff |
| Palettes.ScalarPass | palette.hpp:83-104 | the scalar loop turns the entries into the scan from them. It fails exactly when that needs more than 256 slots, and unused slots stay 0xffff |
| Palettes.LaneIndexBound | palette.hpp:132 | the or-ed index stays below 64 and fits in `std::uint16_t` |
| Palettes.PalettizeVectorized | palette.hpp:108-137 | output i is the lane index of `in[i]` in the first 64 slots. Nothing from `out + count` on changes |
| Palettes.Palettize | palette.hpp:139-160 | vectorized, with at most 64 entries: the lane index. Otherwise it succeeds exactly when every value is an entry, and output i is the `std::find` position of `in[i]`. `out + count` onward is unchanged |
| PaletteExamples.CreatePaletteTest | tests/palettization.cpp:7-26 | {0,1,3,3,3,2} gives the palette [0,1,3,2] on both paths |
| PaletteExamples.PalettizeTest | tests/palettization.cpp:28-65 | {1,1,7,2,7,7,0,1} with entries [1,7,2,0] gives {0,0,1,2,1,1,3,0} on both paths |
| PaletteExamples.SentinelBuilder | palette.hpp:37-45 | {0xffff}: the scalar palette is [0xffff], the vectorized one is empty, and comparing used lanes only gives [0xffff] |
| PaletteExamples.SentinelLookup | palette.hpp:127-132 | with entries [0xffff, 1] and the fill 0xffff, the vectorized index of 0xffff is 48 where `std::find` gives 0. Masking the unused lanes gives 0 |
| Parser.ParseChunk | parser.hpp:21-37 | section i is present exactly when bit i of the mask is set. It starts after the mask plus 8192 bytes per set bit below i, and the pointer moves past the last present section |
| Parser.SectionsLayout | parser.hpp:27-34 | the present sections lie between the mask and the chunk's end, in bit order, 8192 bytes apart and never overlapping |
| Parser.ParseRegion | parser.hpp:39-54 | all 1024 slots are parsed. A slot holds a chunk exactly when its bitmap bit is set, and that chunk is the one at the chunk pointer |
| Parser.ParseSlot | parser.hpp:49-50 | one slot, and the chunk pointer after it |
| Parser.ChunksInOrder | parser.hpp:45-51 | a chunk ends at or before the pointer of every later slot, and the next present chunk starts exactly where it ends |
| Parser.ChunkExample | parser.hpp:24-34 | the mask 5 gives sections 0 and 2, back to back after the mask |

## Left out

- The AVX2 intrinsics (`_mm256_cmpeq_epi16`, `movemask`, `__builtin_ctz`) are
  modelled by what they compute lane by lane. The registers' memory round trip
  in the builder is a copy through a fresh array.
- `main.cpp`, the compression schemes and the compressors are not part of this
  model. Neither are memory-mapping the region file and all timing and output.
- The host is fixed to be little-endian for `std::memcpy` and for the 16-bit
  section mask.
- Palettes.Palette.constructor: `size` is a `nat`, not `std::uint16_t`. It
  never exceeds 256, so the width makes no difference.
- Palettes.CreatePalette: when the scalar pass would break `assert(size < 256)`,
  it returns `ok == false` and says nothing about the palette. The source
  stops there, or with `NDEBUG` writes past the 256 slots.
- Palettes.Palettize: for a value missing from the palette it returns
  `ok == false` and says nothing about `out`. The source breaks
  `assert(it != end)` there.
- Dispatch.BitpackOptimized: `None` stands for `assert(false)` and for
  `ceillog2`'s `assert(x != 0)`. `__builtin_unreachable` is not modelled.
- Dispatch.BitpackVanilla: as for `BitpackOptimized`.
- Bitpacking.Bitpack16To4: the source's `assert(count % 2 == 0)` is a
  precondition. The same goes for `count % 4` in `Bitpack16To2` and
  `count % 8` in `Bitpack16To1`.
- Bitpacking.Bitpack16To7: the input must be readable up to the last index the
  group loop reads (`ReadEnd`). The source reads there without a check, which
  is undefined behaviour past the caller's buffer. The same holds for
  `Bitpack16To6`, `Bitpack16To5` and `Bitpack16To3`.
- BitWidth.CeilLog2: above 2^63 values `2 * x - 1` wraps. The result is then
  only modelled, not characterised.
- Palettes.PalettizeVectorized: `out` must not alias the palette's slots.
  Aliasing is not modelled.
- Parser.ParseRegion: the file must hold the bitmap and the mask of every
  present chunk (`ChunkPos` defined for all 1024 slots). The source reads
  without bounds checks. The section values themselves are never read, so
  their bounds are not required.
- Parser.ParseChunk: a section is recorded by its byte offset rather than a
  pointer. The `std::uint16_t*&` argument becomes the returned address past
  the chunk. The cast of the byte pointer in `parseRegion` is not modelled,
  and neither is alignment.

## Findings

| source | as written | input that shows it | evidently intended | confidence | as-written member | corrected member |
|---|---|---|---|---|---|---|
| bitpacking.hpp:126 | every group word of the 64-bit packers is copied to `out`. The same holds at lines 42, 83 and 197 | 13 values of 27 at 5 bits (the `pack16to5_multiple` test): bytes 8..15 are never written | word i at `out + 8 * i` | high, not executed | BitpackingExamples.MultipleGroupsAsWritten | Packers.BitpackGroupedFixed |
| bitpacking.hpp:134-135 | the remainder word packs `in[0 .. rest)`. The same holds at lines 50-51, 91-92 and 205-206 | twelve zeros then a 1 at 5 bits: the 1 is never stored | the values after the last whole group, `in[loops * group + i]` | high, not executed | BitpackingExamples.RemainderAsWritten | Packers.BitpackGroupedFixed |
| bitpacking.hpp:27 | groups of 9 (and of 10 at line 67) are read at stride 12 | 4096 values at 7 bits read up to index 5456; at 6 bits up to 4905 | stride equal to the group size | high, not executed | BitpackingExamples.StrideOverrun | Dispatch.IntendedBlock |
| bitpacking.hpp:220-223 | byte i reads from `in + 2 * i` at 2 bits (and at 1 bit, lines 238-245) | {0,0,0,0,1,1,1,1} at 2 bits gives {0, 0x50} | byte i reads from `in + 4 * i` (`in + 8 * i` at 1 bit): {0, 0x55} | high, not executed | BitpackingExamples.ByteStepAsWritten | Dispatch.PackContiguous |
| palette.hpp:37-45 | a value is looked up in all 48 lanes, including unused lanes that hold 0xffff | {0xffff}: the vectorized palette is empty and the scalar one is [0xffff] | compare the used lanes only | medium (block ids rarely reach 0xffff), not executed | PaletteExamples.SentinelBuilder | PaletteSpec.FixedPalette |
| palette.hpp:127-132 | the index ors the hits of all four registers, and unused slots hold 0xffff | entries [0xffff, 1]: the index of 0xffff is 48 instead of 0 | mask the lanes at or beyond `size` | medium (block ids rarely reach 0xffff), not executed | PaletteExamples.SentinelLookup | PaletteSpec.LaneIndexMaskedFind |

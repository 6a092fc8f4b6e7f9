# Terrain block decoder

A Dafny model of the parsing core of a World of Warcraft terrain viewer
(`src/parsing/worker.ts`). A terrain block file is a header (4-byte magic,
4-byte version, NUL-terminated debug name) followed by 256 chunk records.
Each record holds a base height at +12, 145 float32 height samples at
+20 .. +600 and a liquid flag at +600. A nonzero flag means a 390-byte
liquid payload follows, which the decoder skips. The decoder turns each
record into `{baseHeight, heightMap}`. Here `heightMap` is the record's
sparse 145-sample map densified to a regular 17 x 17 grid.

The project has three modules:

- `Wrappers` (`wrappers.dfy`): the `Result` type used where the source throws.
- `HeightMap` (`height_map.dfy`): `interpolateHeightMap` as pure functions. `Emitted` gives
  the values one sample contributes, following the source's four branches and using
  JavaScript's truncating `%`. `Interpolate` is the length check followed by the flattened
  pieces. `DenseGrid` is an independent cell-by-cell definition of the 17 x 17 grid, and the
  lemmas prove the two equal.
- `BlockDecoder` (`block_decoder.dfy`): the `loadend` listener's decoding loop as the method
  `LoadBlock`, with the reads of one iteration as the method `ReadRecord`. The buffer is a `seq<bv8>`, and `ArrayBuffer.slice` is modelled with its
  clamping rules. `LoadBlock` is proved against a specification of the record chain:
  `Reaches` says that records 0 .. n-1 are readable, `RecordOffset` gives the start offset
  plus the strides so far, and `Terrain` gives the base height and dense grid of one record.

Float32 decoding is a parameter of type `seq<bv8> -> real`, so nothing is assumed about it.
Heights are `real`, and every inserted value is the exact mean `(a + b) / 2`.

The model follows what the code does, including these points that are easy to misread:

- The liquid payload skipped is 1 + 1 + 9*9*4 + 8*8 = 390 bytes, not 389.
- The points inserted in an inner row are means of the outer samples directly above and
  below (`heightMap[idx-9]`/`heightMap[idx+8]` and `heightMap[idx-8]`/`heightMap[idx+9]`), not
  diagonal means.
- The magic and the version are never checked. `areaId`, `row`, `col` and `holes` are never
  read. The output carries only `baseHeight` and `heightMap`.
- Only the first 601 bytes of each record must be present. Nothing checks that the 256th
  record's liquid payload, or anything after it, is in the buffer.
- A short trailing record never reaches `interpolateHeightMap` with fewer than 145 samples.
  Something fails first. Either the `Float32Array` construction throws
  (src/parsing/worker.ts:42-44, when the cut slice is not a whole number of floats), or the
  liquid-flag read at +600 throws (src/parsing/worker.ts:46).
  `ReadRecord` proves that a successful read always yields exactly 145 samples, and
  `LoadBlock` uses `Interpolate(...).value` without a failure branch.

## Model

| member | source | states |
|---|---|---|
| `HeightMap.Interpolate` | src/parsing/worker.ts:95-98 | fails, with the offending length, exactly when the input does not have 145 samples; no partial result otherwise |
| `HeightMap.Emitted` | src/parsing/worker.ts:101-123 | the piece for sample idx has 1 value at column 8 of its 17-sample row pair, 3 at column 9 and 2 elsewhere; its precondition (145 samples) makes every neighbour read idx+1, idx-9, idx+8, idx-8, idx+9 provably in range |
| `HeightMap.BranchColumn` | src/parsing/worker.ts:102-111 | the JavaScript-remainder tests `idx % 17` and `(idx - 8) % 17 == 0` of the branches are the column idx % 17 of the sample within its 17-sample row pair, and column 8 respectively |
| `HeightMap.Pieces` | src/parsing/worker.ts:100-123 | the `map` step: 145 pieces, piece idx being what sample idx emits |
| `HeightMap.FlattenCons` | src/parsing/worker.ts:124 | `flat()` concatenates the pieces in order: the first piece, then the rest flattened |
| `HeightMap.EmittedFillsGrid` | src/parsing/worker.ts:101-123 | the piece of sample idx is exactly the dense-grid cells Position(idx) .. Position(idx+1) |
| `HeightMap.FlattenPrefix` | src/parsing/worker.ts:100-124 | flattening the first n pieces yields the first Position(n) cells of the dense grid |
| `HeightMap.InterpolateIsDenseGrid` | src/parsing/worker.ts:95-125 | for 145 samples the result is the 17 x 17 dense grid, 289 values, cell p at row p / 17, column p % 17 |
| `HeightMap.OuterRowCells` | src/parsing/worker.ts:102-108 | dense row 2k: column 2j is sample 17k+j unchanged, column 2j+1 the mean of samples 17k+j and 17k+j+1 |
| `HeightMap.InnerRowCells` | src/parsing/worker.ts:110-121 | dense row 2k+1: column 2j+1 is inner sample 17k+9+j unchanged, column 2j the mean of outer samples 17k+j and 17(k+1)+j |
| `HeightMap.DecimateInterpolate` | src/parsing/worker.ts:100-124 | every sample survives: reading the pass-through cells of the output gives back the input |
| `HeightMap.InterpolateWithinBounds` | src/parsing/worker.ts:105-121 | every output value lies within the range of the input samples |
| `HeightMap.InterpolateConstant` | src/parsing/worker.ts:100-124 | a constant sparse map gives a constant grid of 289 cells |
| `HeightMap.InterpolateOuterMidpoints` | src/parsing/worker.ts:105-108 | on a strictly increasing input each of the 9 x 8 horizontal means of an outer row lies strictly between its two sources |
| `HeightMap.InterpolateInnerMidpoints` | src/parsing/worker.ts:110-121 | on a strictly increasing input each of the 8 x 9 vertical means of an inner row lies strictly between its two sources |
| `BlockDecoder.Resolve` | src/parsing/worker.ts:31 | an `ArrayBuffer.slice` index: an in-range index unchanged, a negative one counted from the end, one past len clamped to len, one below -len clamped to 0 |
| `BlockDecoder.Slice` | src/parsing/worker.ts:31-43 | `ArrayBuffer.slice` never fails: an in-range start .. end gives exactly those bytes; an end past the buffer is cut to its end; a negative end counts from the end, as in `slice(8, -1)`; a start at or past the end gives no bytes |
| `BlockDecoder.Floats` | src/parsing/worker.ts:42-44 | a `Float32Array` over a byte slice holds one float per 4 bytes, float i decoded from bytes 4i .. 4i+4 |
| `BlockDecoder.DebugNameBytes` | src/parsing/worker.ts:30-31 | the debug name is the bytes from offset 8 up to the first NUL, the buffer's last byte never included; empty for a buffer of at most 9 bytes; no NUL inside it; all of bytes 8 .. len-1 when they hold no NUL |
| `BlockDecoder.NulIndex` | src/parsing/worker.ts:30-31 | the index of the first NUL, or the length when there is none; no byte before it is NUL |
| `BlockDecoder.FirstRecordOffset` | src/parsing/worker.ts:29-34 | the first record starts right after the first NUL in bytes 8 .. len-2, or at the buffer's end when there is none; at least 9 |
| `BlockDecoder.FirstRecordAfterNul` | src/parsing/worker.ts:30-34 | when byte p is that first NUL, the debug name is bytes 8 .. p-1 and the first record starts at p + 1 |
| `BlockDecoder.ReadRecord` | src/parsing/worker.ts:40-46 | a record at o reads successfully exactly when o + 601 <= len; it then yields the base height from bytes o+12 .. o+16, the 145 samples from o+20 .. o+600 and the flag at o+600; it fails on the base height exactly when o + 16 > len, on the samples exactly when their clamped slice is non-empty and not a multiple of 4 bytes, and on the liquid flag exactly in the remaining short cases |
| `BlockDecoder.ReadError` | src/parsing/worker.ts:40-46 | the error of a short record names the record's own offset |
| `BlockDecoder.Stride` | src/parsing/worker.ts:47-56 | a record takes 601 bytes, and 991 exactly when its liquid flag is nonzero |
| `BlockDecoder.LoadBlock` | src/parsing/worker.ts:33-57 | succeeds exactly when all 256 records are readable along the offset chain; it then returns 256 terrains in file order, entry i being record i at RecordOffset(i); a failure is the read error of the first unreadable record |
| `BlockDecoder.DecodeStep` | src/parsing/worker.ts:46-56 | one iteration on a readable record keeps the loop's progress: the next offset is this one plus 601, plus 390 when the flag is set, and the list grows by the base height and interpolated samples, the interpolation never failing |
| `BlockDecoder.DecodeStop` | src/parsing/worker.ts:35-46 | an unreadable record n < 256 means neither record n + 1 nor the whole block is reached |
| `BlockDecoder.DecodeDone` | src/parsing/worker.ts:35-59 | after 256 iterations the list holds 256 terrains, entry i being record i read at its own offset |
| `BlockDecoder.DecodedAt` | src/parsing/worker.ts:51-54 | the list built after n iterations has n entries, entry i being record i decoded at its own offset |
| `BlockDecoder.ReachesPrefix` | src/parsing/worker.ts:35-57 | when record n cannot be read, no later count of records is reached either |
| `BlockDecoder.RecordOffsetBounds` | src/parsing/worker.ts:56 | record i starts between 601 i and 991 i bytes after the first record |
| `BlockDecoder.RecordsInFileOrder` | src/parsing/worker.ts:56 | records follow each other in file order without overlapping: record j, with its liquid payload, ends at or before record i > j starts |
| `BlockDecoder.FixedStrideWithoutLiquid` | src/parsing/worker.ts:47-56 | when no record so far has liquid, record n starts exactly 601 n bytes after the first |
| `BlockDecoder.OffsetGrowth` | src/parsing/worker.ts:56 | record i starts at least 601 (i - j) bytes after record j |
| `BlockDecoder.LiquidBreaksFixedStride` | src/parsing/worker.ts:47-56 | once some record j < n carries liquid, record n starts at least 601 n + 390 bytes after the first, off the fixed 601-byte grid |
| `BlockDecoder.MinimumBlockLength` | src/parsing/worker.ts:40-46 | a block that decodes has at least 9 + 601 * 256 bytes |
| `BlockDecoder.UniformBlockDecodes` | src/parsing/worker.ts:35-57 | n liquid-free records of 601 bytes after the header are all readable, record n at 601 n past the first |

## Left out

- Fetching the block, the HTTP status check, `Blob`/`FileReader` and the promise plumbing are I/O
  and asynchronous glue (src/parsing/worker.ts:6-27, 59-67). So is the fallback that returns
  `[]` when the result is not an `ArrayBuffer`.
- An exception thrown inside the `loadend` listener leaves the returned promise pending forever.
  The model returns a `Failure` carrying the read that threw instead.
- `BlockDecoder.FirstRecordOffset`: counts the debug name's bytes. The source uses the length of
  the UTF-8-decoded string in UTF-16 units. The two agree only when the name bytes are ASCII.
  Non-ASCII names, invalid UTF-8 (decoded to U+FFFD) and a leading byte-order mark (stripped by
  `TextDecoder`) are not modelled.
- IEEE-754 float32 decoding is the caller-supplied `seq<bv8> -> real`. The source reads the base
  height little-endian through `DataView` and the samples through `Float32Array` in the host's
  byte order. Both are taken to be the same little-endian decoder.
- `HeightMap.InterpolateIsDenseGrid`: the means are exact real averages. The rounding of the
  double-precision (JavaScript `number`) sums and halvings, NaN and infinities are not modelled.
- The magic, the version and the `row`, `col`, `areaId` and `holes` fields are not modelled,
  because `loadBlock` neither checks nor reads them.
- src/gui/viewport.ts, src/gui/worker.ts, src/gui/gradient-map.ts, src/main.ts and main.js are
  rendering, UI and orchestration, and are not part of this model.

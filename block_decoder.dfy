/**
 * The block decoder of src/parsing/worker.ts: the body of `loadBlock`'s
 * `loadend` listener, which finds the debug name, then decodes 256 chunk
 * records that follow each other back to back in the block's bytes.
 *
 * A record at offset o holds, at o + 12, the little-endian float32 base
 * height; at o + 20 .. o + 600 the 145 float32 height samples; at o + 600
 * the liquid flag.  When the flag is nonzero a 390-byte liquid payload
 * follows, which is skipped, so a record is 601 or 991 bytes long.
 */
module BlockDecoder {
  import opened Wrappers
  import HeightMap

  type Byte = bv8

  /**
   * Little-endian IEEE-754 float32 decoding of four bytes, supplied by the
   * caller (DataView.getFloat32 and Float32Array in the source).
   */
  type Float32Decoder = seq<Byte> -> real

  /** Records in a block (a 16 x 16 grid of chunks). */
  const ChunkCount: nat := 256
  /** Offset of the base height within a record. */
  const BaseHeightAt: nat := 12
  /** Offset of the first height sample within a record. */
  const HeightsAt: nat := 20
  /** Offset of the liquid flag within a record. */
  const LiquidFlagAt: nat := 20 + 145 * 4
  /** Bytes of a record without liquid: five 4-byte fields, 145 samples, the flag. */
  const RecordSize: nat := 4 + 4 + 4 + 4 + 4 + 145 * 4 + 1
  /** Bytes of the skipped liquid payload. */
  const LiquidSize: nat := 1 + 1 + 9 * 9 * 4 + 8 * 8

  /** What the decoder hands back per chunk. */
  datatype TerrainGeometry = TerrainGeometry(baseHeight: real, heightMap: seq<real>)

  /** The fields the loop reads from one record, before interpolation. */
  datatype RawRecord = RawRecord(baseHeight: real, heights: seq<real>, hasLiquid: Byte)

  /**
   * The RangeErrors the record reads can raise, each with the offset of the
   * record: the base-height read, the Float32Array over a slice whose length
   * is not a multiple of 4, and the liquid-flag read.
   */
  datatype DecodeError =
    | BaseHeightOutOfRange(offset: nat)
    | HeightsMisaligned(offset: nat)
    | LiquidFlagOutOfRange(offset: nat)

  // ----- JavaScript buffer primitives -----

  /** ArrayBuffer.slice's reading of an index: negative counts from the end, then clamped. */
  function Resolve(length: nat, index: int): (r: nat)
    ensures r <= length
    ensures index > length ==> r == length
    ensures length + index < 0 ==> r == 0
    ensures 0 <= index <= length ==> r == index
    ensures index < 0 && length + index >= 0 ==> r == length + index
  {
    if index < 0 then (if length + index < 0 then 0 else length + index)
    else if index < length then index
    else length
  }

  /** ArrayBuffer.prototype.slice(start, end): never fails, empty when end <= start. */
  function Slice(buffer: seq<Byte>, start: int, end: int): (r: seq<Byte>)
    ensures |r| <= |buffer|
    ensures 0 <= start <= end <= |buffer| ==> r == buffer[start..end]
    ensures start >= |buffer| ==> r == []
    ensures 0 <= start <= |buffer| < end ==> r == buffer[start..]
    ensures end < 0 && 0 <= start <= |buffer| + end ==> r == buffer[start..|buffer| + end]
  {
    var from, to := Resolve(|buffer|, start), Resolve(|buffer|, end);
    if from < to then buffer[from..to] else []
  }

  /** A slice of a slice is a slice of the whole. */
  lemma SliceOfSlice(s: seq<Byte>, a: nat, b: nat, c: nat, d: nat)
    requires a <= b <= |s| && c <= d <= b - a
    ensures s[a..b][c..d] == s[a + c..a + d]
  {
    forall m | 0 <= m < d - c
      ensures s[a..b][c..d][m] == s[a + c..a + d][m]
    {
    }
  }

  /** The floats of a Float32Array over `bytes`, whose length is a multiple of 4. */
  function Floats(bytes: seq<Byte>, f32: Float32Decoder): (r: seq<real>)
    requires |bytes| % 4 == 0
    ensures |r| == |bytes| / 4
    ensures forall i :: 0 <= i < |r| ==> 4 * i + 4 <= |bytes| && r[i] == f32(bytes[4 * i..4 * i + 4])
  {
    seq(|bytes| / 4, i requires 0 <= i < |bytes| / 4 => f32(bytes[4 * i..4 * i + 4]))
  }

  /** Index of the first NUL byte of `s`, or |s| when there is none. */
  function NulIndex(s: seq<Byte>): (n: nat)
    ensures n <= |s|
    ensures forall i :: 0 <= i < n ==> s[i] != 0
    ensures n < |s| ==> s[n] == 0
  {
    if |s| == 0 || s[0] == 0 then 0 else 1 + NulIndex(s[1..])
  }

  // ----- the header -----

  /**
   * The debug name: the bytes of `buffer.slice(8, -1)` before the first
   * NUL.  The buffer's last byte is never part of the search.
   */
  function DebugName(buffer: seq<Byte>): seq<Byte>
  {
    var window := Slice(buffer, 8, -1);
    window[..NulIndex(window)]
  }

  /**
   * The debug name's bytes: empty for a buffer of at most 9 bytes, else the
   * NUL-free run from byte 8 that stops at the first NUL or just before the
   * buffer's last byte.
   */
  lemma DebugNameBytes(buffer: seq<Byte>)
    ensures |buffer| <= 9 ==> DebugName(buffer) == []
    ensures |buffer| > 9 ==>
      8 + |DebugName(buffer)| <= |buffer| - 1 && DebugName(buffer) == buffer[8..8 + |DebugName(buffer)|]
    ensures forall i :: 0 <= i < |DebugName(buffer)| ==> DebugName(buffer)[i] != 0
    ensures 8 + |DebugName(buffer)| < |buffer| - 1 ==> buffer[8 + |DebugName(buffer)|] == 0
    ensures |buffer| > 9 && (forall q :: 8 <= q < |buffer| - 1 ==> buffer[q] != 0) ==>
      DebugName(buffer) == buffer[8..|buffer| - 1]
  {
  }

  /**
   * `4 + 4 + debugName.length + 1`: the first record starts right after the
   * first NUL at or after byte 8 (the last byte excepted), or at the end of
   * the buffer when there is no such NUL.
   */
  function FirstRecordOffset(buffer: seq<Byte>): (o: nat)
    ensures o >= 9
    ensures |buffer| >= 9 ==> o <= |buffer|
    ensures |buffer| <= 9 ==> o == 9
    ensures forall q :: 8 <= q < o - 1 ==> buffer[q] != 0
    ensures o < |buffer| ==> buffer[o - 1] == 0
  {
    var window := Slice(buffer, 8, -1);
    assert |buffer| >= 9 ==> window == buffer[8..|buffer| - 1];
    assert |buffer| <= 9 ==> window == [];
    4 + 4 + |DebugName(buffer)| + 1
  }

  /**
   * When byte p is the first NUL from byte 8 on and is not the buffer's last
   * byte, the debug name is bytes 8 .. p and the first record starts at p + 1.
   */
  lemma FirstRecordAfterNul(buffer: seq<Byte>, p: nat)
    requires 8 <= p < |buffer| - 1 && buffer[p] == 0
    requires forall q :: 8 <= q < p ==> buffer[q] != 0
    ensures DebugName(buffer) == buffer[8..p]
    ensures FirstRecordOffset(buffer) == p + 1
  {
    var window := Slice(buffer, 8, -1);
    assert window == buffer[8..|buffer| - 1];
    assert window[p - 8] == 0;
    assert NulIndex(window) == p - 8;
  }

  // ----- one record -----

  /**
   * The reads of one loop iteration, in the source's order, at record
   * offset `o`: the base height through a DataView over `buffer.slice(o)`,
   * the samples through a Float32Array over `buffer.slice(o + 20, o + 600)`,
   * then the liquid flag through the DataView.
   */
  method ReadRecord(buffer: seq<Byte>, f32: Float32Decoder, o: nat) returns (r: Result<RawRecord, DecodeError>)
    ensures r.Success? <==> Readable(buffer, o)
    ensures r.Success? ==> r.value == RawRecord(f32(buffer[o + BaseHeightAt..o + BaseHeightAt + 4]), Heights(buffer, f32, o), buffer[o + LiquidFlagAt])
    ensures r.Failure? ==> r.error == ReadError(buffer, o)
    ensures r == Failure(BaseHeightOutOfRange(o)) <==> o + 16 > |buffer|
    ensures r == Failure(HeightsMisaligned(o)) <==>
      o + 16 <= |buffer| && HeightSliceMisaligned(buffer, o)
    ensures r == Failure(LiquidFlagOutOfRange(o)) <==>
      o + 16 <= |buffer| < o + RecordSize && !HeightSliceMisaligned(buffer, o)
  {
    var view := Slice(buffer, o, |buffer|);
    if |view| < BaseHeightAt + 4 {
      return Failure(BaseHeightOutOfRange(o));
    }
    assert view[BaseHeightAt..BaseHeightAt + 4] == buffer[o + BaseHeightAt..o + BaseHeightAt + 4] by {
      SliceOfSlice(buffer, o, |buffer|, 12, 16);
    }
    var baseHeight := f32(view[BaseHeightAt..BaseHeightAt + 4]);
    var heightBytes := Slice(buffer, o + HeightsAt, o + HeightsAt + 145 * 4);
    if |heightBytes| % 4 != 0 {
      return Failure(HeightsMisaligned(o));
    }
    var heights := Floats(heightBytes, f32);
    if |view| < LiquidFlagAt + 1 {
      return Failure(LiquidFlagOutOfRange(o));
    }
    assert heightBytes == buffer[o + HeightsAt..o + LiquidFlagAt];
    assert heights == Heights(buffer, f32, o) by {
      forall i | 0 <= i < 145
        ensures heightBytes[4 * i..4 * i + 4] == buffer[o + HeightsAt + 4 * i..o + HeightsAt + 4 * i + 4]
      {
        SliceOfSlice(buffer, o + HeightsAt, o + LiquidFlagAt, 4 * i, 4 * i + 4);
      }
    }
    return Success(RawRecord(baseHeight, heights, view[LiquidFlagAt]));
  }


  // ----- the specification of the loop -----

  /**
   * The byte slice o + 20 .. o + 600, cut short by the buffer's end, is
   * non-empty and not a whole number of floats.
   */
  predicate HeightSliceMisaligned(buffer: seq<Byte>, o: nat)
  {
    o + HeightsAt < |buffer| < o + LiquidFlagAt && (|buffer| - o - HeightsAt) % 4 != 0
  }

  /**
   * The error of the first read that leaves the buffer at `o`: the base
   * height, then the sample slice when it is cut to a length that is not a
   * multiple of 4, then the liquid flag.
   */
  function ReadError(buffer: seq<Byte>, o: nat): (e: DecodeError)
    requires !Readable(buffer, o)
    ensures e.offset == o
  {
    if o + 16 > |buffer| then BaseHeightOutOfRange(o)
    else if HeightSliceMisaligned(buffer, o) then HeightsMisaligned(o)
    else LiquidFlagOutOfRange(o)
  }

  /** All three reads of a record at `o` stay inside the buffer. */
  predicate Readable(buffer: seq<Byte>, o: nat)
  {
    o + RecordSize <= |buffer|
  }

  /** The 145 samples of the record at `o`: four bytes each, from o + 20 on. */
  function Heights(buffer: seq<Byte>, f32: Float32Decoder, o: nat): (r: seq<real>)
    requires o + LiquidFlagAt <= |buffer|
    ensures |r| == HeightMap.SampleCount
  {
    seq(145, i requires 0 <= i < 145 => f32(buffer[o + HeightsAt + 4 * i..o + HeightsAt + 4 * i + 4]))
  }

  /** Bytes taken by the readable record at `o`: the record, plus the liquid payload when its flag is set. */
  function Stride(buffer: seq<Byte>, o: nat): (size: nat)
    requires Readable(buffer, o)
    ensures size == RecordSize || size == RecordSize + LiquidSize
    ensures size == RecordSize + LiquidSize <==> buffer[o + LiquidFlagAt] != 0
  {
    if buffer[o + LiquidFlagAt] != 0 then RecordSize + LiquidSize else RecordSize
  }

  /** What the record at `o` decodes to: its base height and its densified samples. */
  function Terrain(buffer: seq<Byte>, f32: Float32Decoder, o: nat): TerrainGeometry
    requires Readable(buffer, o)
  {
    TerrainGeometry(f32(buffer[o + BaseHeightAt..o + BaseHeightAt + 4]), HeightMap.DenseGrid(Heights(buffer, f32, o)))
  }

  /** The first n records are all readable, each at the offset its predecessors lead to. */
  predicate Reaches(buffer: seq<Byte>, n: nat)
    decreases n, 0
  {
    n == 0 || (Reaches(buffer, n - 1) && Readable(buffer, RecordOffset(buffer, n - 1)))
  }

  /** Offset of record i: the first record's offset plus the strides of records 0 .. i - 1. */
  function RecordOffset(buffer: seq<Byte>, i: nat): nat
    requires Reaches(buffer, i)
    decreases i, 1
  {
    if i == 0 then FirstRecordOffset(buffer)
    else RecordOffset(buffer, i - 1) + Stride(buffer, RecordOffset(buffer, i - 1))
  }

  /** The terrains of the first n records, in file order. */
  function Decoded(buffer: seq<Byte>, f32: Float32Decoder, n: nat): seq<TerrainGeometry>
    requires Reaches(buffer, n)
  {
    if n == 0 then []
    else Decoded(buffer, f32, n - 1) + [Terrain(buffer, f32, RecordOffset(buffer, n - 1))]
  }

  /** Entry i of the first n decoded records is record i, read at its own offset. */
  lemma {:induction false} DecodedAt(buffer: seq<Byte>, f32: Float32Decoder, n: nat)
    requires Reaches(buffer, n)
    ensures |Decoded(buffer, f32, n)| == n
    ensures forall i :: 0 <= i < n ==>
      Reaches(buffer, i) && Readable(buffer, RecordOffset(buffer, i)) &&
      Decoded(buffer, f32, n)[i] == Terrain(buffer, f32, RecordOffset(buffer, i))
  {
    if n > 0 {
      DecodedAt(buffer, f32, n - 1);
      var prefix, last := Decoded(buffer, f32, n - 1), Terrain(buffer, f32, RecordOffset(buffer, n - 1));
      assert Decoded(buffer, f32, n) == prefix + [last];
      forall i | 0 <= i < n
        ensures Reaches(buffer, i) && Readable(buffer, RecordOffset(buffer, i))
        ensures Decoded(buffer, f32, n)[i] == Terrain(buffer, f32, RecordOffset(buffer, i))
      {
        if i < n - 1 {
          assert Decoded(buffer, f32, n)[i] == prefix[i];
        }
      }
    }
  }

  /** After n iterations: n records reached, `o` at record n, and the first n terrains collected. */
  predicate Progress(buffer: seq<Byte>, f32: Float32Decoder, n: nat, o: nat, terrains: seq<TerrainGeometry>)
  {
    Reaches(buffer, n) && o == RecordOffset(buffer, n) && terrains == Decoded(buffer, f32, n)
  }

  /**
   * One successful iteration in the source's own terms: the record read at
   * record n's offset leads to record n + 1, 601 bytes on plus 390 when it
   * carries liquid, and adds its base height and interpolated samples.
   */
  lemma DecodeStep(buffer: seq<Byte>, f32: Float32Decoder, n: nat, o: nat, terrains: seq<TerrainGeometry>, raw: RawRecord)
    requires Progress(buffer, f32, n, o, terrains) && Readable(buffer, o)
    requires raw == RawRecord(f32(buffer[o + BaseHeightAt..o + BaseHeightAt + 4]), Heights(buffer, f32, o), buffer[o + LiquidFlagAt])
    ensures HeightMap.Interpolate(raw.heights).Success?
    ensures Progress(buffer, f32, n + 1, o + RecordSize + (if raw.hasLiquid != 0 then LiquidSize else 0),
      terrains + [TerrainGeometry(raw.baseHeight, HeightMap.Interpolate(raw.heights).value)])
  {
    HeightMap.InterpolateIsDenseGrid(raw.heights);
  }

  /** After all 256 iterations the list holds the 256 records in file order, each read at its own offset. */
  lemma DecodeDone(buffer: seq<Byte>, f32: Float32Decoder, o: nat, terrains: seq<TerrainGeometry>)
    requires Progress(buffer, f32, ChunkCount, o, terrains)
    ensures Reaches(buffer, ChunkCount) && |terrains| == ChunkCount
    ensures forall i :: 0 <= i < ChunkCount ==>
      Reaches(buffer, i) && Readable(buffer, RecordOffset(buffer, i)) &&
      terrains[i] == Terrain(buffer, f32, RecordOffset(buffer, i))
  {
    DecodedAt(buffer, f32, ChunkCount);
  }

  /** A record that cannot be read ends the chain: no later count of records is reached. */
  lemma DecodeStop(buffer: seq<Byte>, f32: Float32Decoder, n: nat, o: nat, terrains: seq<TerrainGeometry>)
    requires n < ChunkCount && Progress(buffer, f32, n, o, terrains) && !Readable(buffer, o)
    ensures !Reaches(buffer, n + 1) && !Reaches(buffer, ChunkCount)
    ensures Reaches(buffer, n) && o == RecordOffset(buffer, n)
  {
    assert !Reaches(buffer, n + 1);
    ReachesPrefix(buffer, n + 1, ChunkCount);
  }

  // ----- the loop -----

  /**
   * The `loadend` listener's decoding: 256 iterations, each reading the
   * record at `currentOffset`, appending its base height and interpolated
   * height map, and advancing by the record's own size.
   */
  method LoadBlock(buffer: seq<Byte>, f32: Float32Decoder) returns (result: Result<seq<TerrainGeometry>, DecodeError>)
    ensures result.Success? <==> Reaches(buffer, ChunkCount)
    ensures result.Success? ==>
      |result.value| == ChunkCount &&
      forall i :: 0 <= i < ChunkCount ==>
        Reaches(buffer, i) && Readable(buffer, RecordOffset(buffer, i)) &&
        result.value[i] == Terrain(buffer, f32, RecordOffset(buffer, i))
    ensures result.Failure? ==>
      exists n :: 0 <= n < ChunkCount && Reaches(buffer, n) &&
        !Readable(buffer, RecordOffset(buffer, n)) && result.error == ReadError(buffer, RecordOffset(buffer, n))
  {
    var debugName := DebugName(buffer);
    var terrains: seq<TerrainGeometry> := [];
    var currentOffset: nat := 4 + 4 + |debugName| + 1;
    assert Progress(buffer, f32, 0, currentOffset, terrains);
    for currentChunkNumber := 0 to ChunkCount
      invariant Progress(buffer, f32, currentChunkNumber, currentOffset, terrains)
    {
      var record := ReadRecord(buffer, f32, currentOffset);
      if record.Failure? {
        DecodeStop(buffer, f32, currentChunkNumber, currentOffset, terrains);
        return Failure(record.error);
      }
      var liquidSize: nat := if record.value.hasLiquid != 0 then 1 + 1 + 9 * 9 * 4 + 8 * 8 else 0;
      DecodeStep(buffer, f32, currentChunkNumber, currentOffset, terrains, record.value);
      var heightMap := HeightMap.Interpolate(record.value.heights).value;
      terrains := terrains + [TerrainGeometry(record.value.baseHeight, heightMap)];
      currentOffset := currentOffset + 4 + 4 + 4 + 4 + 4 + 145 * 4 + 1 + liquidSize;
    }
    DecodeDone(buffer, f32, currentOffset, terrains);
    return Success(terrains);
  }

  // ----- properties of the record chain -----

  /** Reaching n records means reaching every shorter prefix. */
  lemma {:induction false} ReachesPrefix(buffer: seq<Byte>, m: nat, n: nat)
    requires m <= n
    ensures Reaches(buffer, n) ==> Reaches(buffer, m)
    decreases n - m
  {
    if m < n {
      ReachesPrefix(buffer, m + 1, n);
    }
  }

  /** Each record is 601 or 991 bytes, so record i starts between 601 i and 991 i bytes after the first. */
  lemma {:induction false} RecordOffsetBounds(buffer: seq<Byte>, i: nat)
    requires Reaches(buffer, i)
    ensures FirstRecordOffset(buffer) + RecordSize * i <= RecordOffset(buffer, i) <= FirstRecordOffset(buffer) + (RecordSize + LiquidSize) * i
  {
    if i > 0 {
      RecordOffsetBounds(buffer, i - 1);
    }
  }

  /**
   * Records come in file order and never overlap: record j, with its liquid
   * payload if any, ends at or before record i starts.
   */
  lemma {:induction false} RecordsInFileOrder(buffer: seq<Byte>, j: nat, i: nat)
    requires j < i && Reaches(buffer, i)
    ensures Reaches(buffer, j) && Readable(buffer, RecordOffset(buffer, j))
    ensures RecordOffset(buffer, j) + Stride(buffer, RecordOffset(buffer, j)) <= RecordOffset(buffer, i)
    decreases i - j
  {
    if j + 1 < i {
      RecordsInFileOrder(buffer, j + 1, i);
    }
  }

  /** When no record so far carries liquid, records follow each other at the fixed 601 bytes. */
  lemma {:induction false} FixedStrideWithoutLiquid(buffer: seq<Byte>, n: nat)
    requires Reaches(buffer, n)
    requires forall i :: 0 <= i < n ==>
      Reaches(buffer, i) && Readable(buffer, RecordOffset(buffer, i)) &&
      buffer[RecordOffset(buffer, i) + LiquidFlagAt] == 0
    ensures RecordOffset(buffer, n) == FirstRecordOffset(buffer) + RecordSize * n
  {
    if n > 0 {
      FixedStrideWithoutLiquid(buffer, n - 1);
    }
  }

  /** Between record j and a later record i lie at least 601 bytes per record. */
  lemma {:induction false} OffsetGrowth(buffer: seq<Byte>, j: nat, i: nat)
    requires j <= i && Reaches(buffer, i)
    ensures Reaches(buffer, j) && RecordOffset(buffer, j) + RecordSize * (i - j) <= RecordOffset(buffer, i)
    decreases i - j
  {
    if j < i {
      OffsetGrowth(buffer, j + 1, i);
    }
  }

  /**
   * A single record with liquid breaks the fixed stride: every later record
   * starts at least 390 bytes past where 601-byte records would put it.
   */
  lemma LiquidBreaksFixedStride(buffer: seq<Byte>, j: nat, n: nat)
    requires j < n && Reaches(buffer, n)
    requires Reaches(buffer, j) && Readable(buffer, RecordOffset(buffer, j))
    requires buffer[RecordOffset(buffer, j) + LiquidFlagAt] != 0
    ensures RecordOffset(buffer, n) >= FirstRecordOffset(buffer) + RecordSize * n + LiquidSize
  {
    RecordOffsetBounds(buffer, j);
    OffsetGrowth(buffer, j + 1, n);
  }

  /**
   * A block decodes only if the buffer holds the header and 256 records of
   * at least 601 bytes each; the last record's liquid payload, if any, is
   * never required.
   */
  lemma MinimumBlockLength(buffer: seq<Byte>)
    requires Reaches(buffer, ChunkCount)
    ensures |buffer| >= FirstRecordOffset(buffer) + RecordSize * ChunkCount
    ensures |buffer| >= 9 + RecordSize * ChunkCount
  {
    RecordOffsetBounds(buffer, ChunkCount - 1);
  }

  /**
   * A buffer with n liquid-free records of 601 bytes after the header
   * decodes, every record sitting at a multiple of 601 past the header.
   */
  lemma {:induction false} UniformBlockDecodes(buffer: seq<Byte>, n: nat)
    requires |buffer| >= FirstRecordOffset(buffer) + RecordSize * n
    requires forall j :: 0 <= j < n ==> buffer[FirstRecordOffset(buffer) + RecordSize * j + LiquidFlagAt] == 0
    ensures Reaches(buffer, n) && RecordOffset(buffer, n) == FirstRecordOffset(buffer) + RecordSize * n
  {
    if n > 0 {
      UniformBlockDecodes(buffer, n - 1);
      var o := RecordOffset(buffer, n - 1);
      assert o == FirstRecordOffset(buffer) + RecordSize * (n - 1);
      assert buffer[o + LiquidFlagAt] == 0;
      assert Stride(buffer, o) == RecordSize;
    }
  }
}

/**
 * The height-map densifier `interpolateHeightMap` of src/parsing/worker.ts.
 *
 * A chunk's sparse height map has 145 samples: nine "outer" rows of 9
 * samples interleaved with eight "inner" rows of 8 samples, so that index
 * 17k + j is outer row k, column j, and index 17k + 9 + j is inner row k,
 * column j (the inner samples sit between four outer ones).  The densifier
 * emits, for every sample, one, two or three values and concatenates them
 * into a regular 17 x 17 grid of 289 values.
 */
module HeightMap {
  import opened Wrappers

  /** Samples in a sparse height map (9 * 9 outer + 8 * 8 inner). */
  const SampleCount: nat := 145
  /** One outer row followed by one inner row of the sparse layout. */
  const RowPairLength: nat := 17
  /** Side of the dense grid. */
  const Side: nat := 17
  /** Cells of the dense grid. */
  const CellCount: nat := 289

  /** The error `interpolateHeightMap` throws when it is not given 145 values. */
  datatype GridError = InvalidGridSize(length: nat)

  /** The remainder of JavaScript's `%`, which truncates toward zero. */
  function JsRem(a: int, b: int): (r: int)
    requires b > 0
    ensures a >= 0 ==> 0 <= r < b
    ensures a < 0 ==> -b < r <= 0
  {
    if a >= 0 then a % b else -((-a) % b)
  }

  /** The two-point average used for every inserted value. */
  function Mean(a: real, b: real): real
  {
    (a + b) / 2.0
  }

  /**
   * The values emitted for the sample at `idx`, with the branches of the
   * source in their order: end of an outer row, rest of an outer row,
   * first inner sample of an inner row, other inner samples.
   */
  function Emitted(heights: seq<real>, idx: nat): (r: seq<real>)
    requires |heights| == SampleCount && idx < SampleCount
    ensures |r| == EmittedCount(idx)
  {
    if JsRem(idx - 8, 17) == 0 then
      [heights[idx]]
    else if JsRem(idx, 17) < 8 then
      [heights[idx], Mean(heights[idx], heights[idx + 1])]
    else if JsRem(idx, 17) == 9 then
      [Mean(heights[idx - 9], heights[idx + 8]), heights[idx], Mean(heights[idx - 8], heights[idx + 9])]
    else
      [heights[idx], Mean(heights[idx - 8], heights[idx + 9])]
  }

  /** How many values the sample at `idx` contributes, by its column in the row pair. */
  function EmittedCount(idx: nat): nat
  {
    var c := idx % RowPairLength;
    if c == 8 then 1 else if c == 9 then 3 else 2
  }

  /** Concatenation of a sequence of sequences (JavaScript's `flat()`), built from the last part back. */
  function Flatten(parts: seq<seq<real>>): seq<real>
  {
    if |parts| == 0 then [] else Flatten(parts[..|parts| - 1]) + parts[|parts| - 1]
  }

  /** `flat()` read from the front: the first part comes first, followed by the rest flattened. */
  lemma {:induction false} FlattenCons(parts: seq<seq<real>>)
    requires |parts| > 0
    ensures Flatten(parts) == parts[0] + Flatten(parts[1..])
  {
    if |parts| > 1 {
      var init := parts[..|parts| - 1];
      FlattenCons(init);
      assert parts[1..][..|parts| - 2] == init[1..];
    } else {
      assert parts[..0] == [] && parts[1..] == [];
    }
  }

  /** The per-sample pieces, in input order, before flattening. */
  function Pieces(heights: seq<real>): (r: seq<seq<real>>)
    requires |heights| == SampleCount
    ensures |r| == SampleCount
    ensures forall idx :: 0 <= idx < SampleCount ==> r[idx] == Emitted(heights, idx)
  {
    seq(SampleCount, idx requires 0 <= idx < SampleCount => Emitted(heights, idx))
  }

  /**
   * `interpolateHeightMap`: refuses any input that does not have exactly 145
   * samples, and otherwise returns the flattened pieces.
   */
  function Interpolate(heights: seq<real>): (r: Result<seq<real>, GridError>)
    ensures r.Failure? <==> |heights| != SampleCount
    ensures r.Failure? ==> r.error == InvalidGridSize(|heights|)
  {
    if |heights| != SampleCount then Failure(InvalidGridSize(|heights|))
    else Success(Flatten(Pieces(heights)))
  }

  // ----- the dense grid, defined cell by cell -----

  /**
   * The value of the dense grid at (row, col).  Even rows are outer rows:
   * their even columns are the outer samples and their odd columns the mean
   * of the two horizontal neighbours.  Odd rows are inner rows: their odd
   * columns are the inner samples and their even columns the mean of the
   * outer samples directly above and below.
   */
  function DenseAt(heights: seq<real>, row: nat, col: nat): real
    requires |heights| == SampleCount && row < Side && col < Side
  {
    var k, j := row / 2, col / 2;
    if row % 2 == 0 then
      if col % 2 == 0 then heights[17 * k + j]
      else Mean(heights[17 * k + j], heights[17 * k + j + 1])
    else
      if col % 2 == 1 then heights[17 * k + 9 + j]
      else Mean(heights[17 * k + j], heights[17 * (k + 1) + j])
  }

  /** The 17 x 17 grid in row-major order: cell p is (p / 17, p % 17). */
  function DenseGrid(heights: seq<real>): (g: seq<real>)
    requires |heights| == SampleCount
    ensures |g| == CellCount
  {
    seq(CellCount, p requires 0 <= p < CellCount => DenseAt(heights, p / Side, p % Side))
  }

  /** Number of dense cells emitted before the sample at `idx`. */
  function Position(idx: nat): nat
  {
    34 * (idx / 17) + 2 * (idx % 17) - (if idx % 17 == 9 then 1 else 0)
  }

  /** The dense cell that receives the sample at `idx` unchanged. */
  function PassThroughCell(idx: nat): (p: nat)
    requires idx < SampleCount
    ensures p < CellCount
  {
    34 * (idx / 17) + 2 * (idx % 17)
  }

  /** Recovers the sparse samples from a dense grid by reading their pass-through cells. */
  function Decimate(grid: seq<real>): (heights: seq<real>)
    requires |grid| == CellCount
    ensures |heights| == SampleCount
  {
    seq(SampleCount, idx requires 0 <= idx < SampleCount => grid[PassThroughCell(idx)])
  }

  // ----- the cells of the dense grid in closed form -----

  /** Cell p of a row-major 17-wide grid lies in row p / 17, column p % 17. */
  lemma CellOf(p: nat, row: nat, col: nat)
    requires col < 17 && p == 17 * row + col
    ensures p / 17 == row && p % 17 == col
  {
  }

  /** Halving 2n and 2n + 1. */
  lemma Halves(n: nat)
    ensures (2 * n) / 2 == n && (2 * n) % 2 == 0
    ensures (2 * n + 1) / 2 == n && (2 * n + 1) % 2 == 1
  {
  }

  /** Cell (row, col) of the dense grid sits at index 17 row + col. */
  lemma GridCell(heights: seq<real>, row: nat, col: nat)
    requires |heights| == SampleCount && row < Side && col < Side
    ensures DenseGrid(heights)[17 * row + col] == DenseAt(heights, row, col)
  {
    CellOf(17 * row + col, row, col);
  }

  /** Dense row 2k, column 2j: outer sample 17k + j unchanged. */
  lemma OuterSampleCell(heights: seq<real>, k: nat, j: nat)
    requires |heights| == SampleCount && k <= 8 && j <= 8
    ensures DenseGrid(heights)[34 * k + 2 * j] == heights[17 * k + j]
  {
    GridCell(heights, 2 * k, 2 * j);
    Halves(k);
    Halves(j);
  }

  /** Dense row 2k, column 2j + 1: mean of outer samples 17k + j and 17k + j + 1. */
  lemma OuterMeanCell(heights: seq<real>, k: nat, j: nat)
    requires |heights| == SampleCount && k <= 8 && j < 8
    ensures DenseGrid(heights)[34 * k + 2 * j + 1] == Mean(heights[17 * k + j], heights[17 * k + j + 1])
  {
    GridCell(heights, 2 * k, 2 * j + 1);
    Halves(k);
    Halves(j);
  }

  /** Dense row 2k + 1, column 2j: mean of the outer samples above (17k + j) and below (17(k + 1) + j). */
  lemma InnerMeanCell(heights: seq<real>, k: nat, j: nat)
    requires |heights| == SampleCount && k <= 7 && j <= 8
    ensures DenseGrid(heights)[34 * k + 17 + 2 * j] == Mean(heights[17 * k + j], heights[17 * (k + 1) + j])
  {
    GridCell(heights, 2 * k + 1, 2 * j);
    Halves(k);
    Halves(j);
  }

  /** Dense row 2k + 1, column 2j + 1: inner sample 17k + 9 + j unchanged. */
  lemma InnerSampleCell(heights: seq<real>, k: nat, j: nat)
    requires |heights| == SampleCount && k <= 7 && j < 8
    ensures DenseGrid(heights)[34 * k + 18 + 2 * j] == heights[17 * k + 9 + j]
  {
    GridCell(heights, 2 * k + 1, 2 * j + 1);
    Halves(k);
    Halves(j);
  }

  // ----- the flattened pieces are the dense grid -----

  lemma Slice2(g: seq<real>, p: nat)
    requires p + 2 <= |g|
    ensures g[p..p + 2] == [g[p], g[p + 1]]
  {
  }

  lemma Slice3(g: seq<real>, p: nat)
    requires p + 3 <= |g|
    ensures g[p..p + 3] == [g[p], g[p + 1], g[p + 2]]
  {
  }

  /** Where sample `idx` starts in the dense grid, and how far its piece reaches. */
  lemma PositionStep(idx: nat)
    requires idx < SampleCount
    ensures Position(idx) + EmittedCount(idx) == Position(idx + 1) <= CellCount
  {
    var k, c := idx / 17, idx % 17;
    if c < 16 {
      CellOf(idx + 1, k, c + 1);
    } else {
      CellOf(idx + 1, k + 1, 0);
    }
  }

  /** The remainders the branches of `Emitted` test are the column of `idx` within its row pair. */
  lemma BranchColumn(idx: nat)
    ensures JsRem(idx, 17) == idx % 17
    ensures JsRem(idx - 8, 17) == 0 <==> idx % 17 == 8
  {
    var k, c := idx / 17, idx % 17;
    assert idx == 17 * k + c;
    if idx >= 8 {
      if c >= 8 {
        CellOf(idx - 8, k, c - 8);
      } else {
        CellOf(idx - 8, k - 1, c + 9);
      }
    }
  }

  /** The piece emitted for sample `idx` is exactly its stretch of the dense grid. */
  lemma EmittedFillsGrid(heights: seq<real>, idx: nat)
    requires |heights| == SampleCount && idx < SampleCount
    ensures Position(idx) <= Position(idx + 1) <= CellCount
    ensures Emitted(heights, idx) == DenseGrid(heights)[Position(idx)..Position(idx + 1)]
  {
    var k, c := idx / 17, idx % 17;
    CellOf(idx, k, c);
    PositionStep(idx);
    BranchColumn(idx);
    if c < 8 {
      OuterPieceFillsGrid(heights, idx, k, c);
    } else if c == 8 {
      RowEndPieceFillsGrid(heights, idx, k);
    } else if c == 9 {
      FirstInnerPieceFillsGrid(heights, idx, k);
    } else {
      InnerPieceFillsGrid(heights, idx, k, c);
    }
  }

  /** Outer sample, not the last of its row: itself, then the mean with its right neighbour. */
  lemma OuterPieceFillsGrid(heights: seq<real>, idx: nat, k: nat, c: nat)
    requires |heights| == SampleCount && idx < SampleCount && c < 8 && idx == 17 * k + c
    ensures DenseGrid(heights)[34 * k + 2 * c..34 * k + 2 * c + 2] == [heights[idx], Mean(heights[idx], heights[idx + 1])]
  {
    var g, p := DenseGrid(heights), 34 * k + 2 * c;
    OuterSampleCell(heights, k, c);
    OuterMeanCell(heights, k, c);
    Slice2(g, p);
  }

  /** Last outer sample of a row: itself only. */
  lemma RowEndPieceFillsGrid(heights: seq<real>, idx: nat, k: nat)
    requires |heights| == SampleCount && idx < SampleCount && idx == 17 * k + 8
    ensures DenseGrid(heights)[34 * k + 16..34 * k + 17] == [heights[idx]]
  {
    var g, p := DenseGrid(heights), 34 * k + 16;
    OuterSampleCell(heights, k, 8);
    assert g[p..p + 1] == [g[p]];
  }

  /** First inner sample of a row: the mean above/below column 0, itself, the mean above/below column 1. */
  lemma FirstInnerPieceFillsGrid(heights: seq<real>, idx: nat, k: nat)
    requires |heights| == SampleCount && idx < SampleCount && idx == 17 * k + 9
    ensures DenseGrid(heights)[34 * k + 17..34 * k + 20] ==
      [Mean(heights[idx - 9], heights[idx + 8]), heights[idx], Mean(heights[idx - 8], heights[idx + 9])]
  {
    var g, p := DenseGrid(heights), 34 * k + 17;
    InnerMeanCell(heights, k, 0);
    InnerSampleCell(heights, k, 0);
    InnerMeanCell(heights, k, 1);
    assert 17 * k == idx - 9 && 17 * (k + 1) == idx + 8 && 17 * k + 1 == idx - 8 && 17 * (k + 1) + 1 == idx + 9;
    Slice3(g, p);
  }

  /** Other inner samples: itself, then the mean above/below the next column. */
  lemma InnerPieceFillsGrid(heights: seq<real>, idx: nat, k: nat, c: nat)
    requires |heights| == SampleCount && idx < SampleCount && 10 <= c < 17 && idx == 17 * k + c
    ensures DenseGrid(heights)[34 * k + 2 * c..34 * k + 2 * c + 2] == [heights[idx], Mean(heights[idx - 8], heights[idx + 9])]
  {
    var g, p := DenseGrid(heights), 34 * k + 2 * c;
    InnerSampleCell(heights, k, c - 9);
    InnerMeanCell(heights, k, c - 8);
    assert 17 * k + 9 + (c - 9) == idx && 34 * k + 18 + 2 * (c - 9) == p;
    assert 17 * k + (c - 8) == idx - 8 && 17 * (k + 1) + (c - 8) == idx + 9 && 34 * k + 17 + 2 * (c - 8) == p + 1;
    Slice2(g, p);
  }

  /** The first n pieces, flattened, are the first Position(n) cells of the dense grid. */
  lemma {:induction false} FlattenPrefix(heights: seq<real>, n: nat)
    requires |heights| == SampleCount && n <= SampleCount
    ensures Position(n) <= CellCount
    ensures Flatten(Pieces(heights)[..n]) == DenseGrid(heights)[..Position(n)]
  {
    var parts := Pieces(heights);
    var g := DenseGrid(heights);
    if n == 0 {
      assert parts[..0] == [];
    } else {
      FlattenPrefix(heights, n - 1);
      EmittedFillsGrid(heights, n - 1);
      assert parts[..n][..n - 1] == parts[..n - 1];
      calc {
        Flatten(parts[..n]);
        Flatten(parts[..n - 1]) + parts[n - 1];
        g[..Position(n - 1)] + g[Position(n - 1)..Position(n)];
        { assert g[..Position(n)] == g[..Position(n - 1)] + g[Position(n - 1)..Position(n)]; }
        g[..Position(n)];
      }
    }
  }

  /** For 145 samples, `interpolateHeightMap` returns exactly the dense 17 x 17 grid. */
  lemma InterpolateIsDenseGrid(heights: seq<real>)
    requires |heights| == SampleCount
    ensures Interpolate(heights) == Success(DenseGrid(heights))
    ensures |Interpolate(heights).value| == CellCount
  {
    FlattenPrefix(heights, SampleCount);
    assert Pieces(heights)[..SampleCount] == Pieces(heights);
    assert DenseGrid(heights)[..CellCount] == DenseGrid(heights);
  }

  // ----- consequences for callers -----

  /**
   * Outer row k of the sparse map becomes dense row 2k: column 2j holds
   * sample 17k + j unchanged, column 2j + 1 the mean of it and its right
   * neighbour.
   */
  lemma OuterRowCells(heights: seq<real>, k: nat, j: nat)
    requires |heights| == SampleCount && k <= 8 && j <= 8
    ensures Interpolate(heights).Success?
    ensures var g := Interpolate(heights).value;
      |g| == CellCount &&
      g[17 * (2 * k) + 2 * j] == heights[17 * k + j] &&
      (j < 8 ==> g[17 * (2 * k) + 2 * j + 1] == Mean(heights[17 * k + j], heights[17 * k + j + 1]))
  {
    InterpolateIsDenseGrid(heights);
    OuterSampleCell(heights, k, j);
    if j < 8 {
      OuterMeanCell(heights, k, j);
    }
  }

  /**
   * Inner row k of the sparse map becomes dense row 2k + 1: column 2j + 1
   * holds inner sample 17k + 9 + j unchanged, column 2j the mean of the
   * outer samples directly above (17k + j) and below (17(k + 1) + j).
   */
  lemma InnerRowCells(heights: seq<real>, k: nat, j: nat)
    requires |heights| == SampleCount && k <= 7 && j <= 8
    ensures Interpolate(heights).Success?
    ensures var g := Interpolate(heights).value;
      |g| == CellCount &&
      g[17 * (2 * k + 1) + 2 * j] == Mean(heights[17 * k + j], heights[17 * (k + 1) + j]) &&
      (j < 8 ==> g[17 * (2 * k + 1) + 2 * j + 1] == heights[17 * k + 9 + j])
  {
    InterpolateIsDenseGrid(heights);
    InnerMeanCell(heights, k, j);
    if j < 8 {
      InnerSampleCell(heights, k, j);
    }
  }

  /** Interpolation loses no sample: reading back the pass-through cells gives the input. */
  lemma DecimateInterpolate(heights: seq<real>)
    requires |heights| == SampleCount
    ensures Interpolate(heights).Success? && |Interpolate(heights).value| == CellCount
    ensures Decimate(Interpolate(heights).value) == heights
  {
    InterpolateIsDenseGrid(heights);
    var g := DenseGrid(heights);
    forall idx | 0 <= idx < SampleCount
      ensures g[PassThroughCell(idx)] == heights[idx]
    {
      var k, c := idx / 17, idx % 17;
      CellOf(idx, k, c);
      if c <= 8 {
        OuterSampleCell(heights, k, c);
      } else {
        InnerSampleCell(heights, k, c - 9);
      }
    }
  }

  /** Every dense value lies within the range of the sparse samples. */
  lemma InterpolateWithinBounds(heights: seq<real>, lo: real, hi: real)
    requires |heights| == SampleCount
    requires forall i :: 0 <= i < SampleCount ==> lo <= heights[i] <= hi
    ensures Interpolate(heights).Success?
    ensures forall v :: v in Interpolate(heights).value ==> lo <= v <= hi
  {
    InterpolateIsDenseGrid(heights);
    var g := DenseGrid(heights);
    forall p | 0 <= p < CellCount
      ensures lo <= g[p] <= hi
    {
      assert g[p] == DenseAt(heights, p / Side, p % Side);
    }
  }

  /** A flat sparse map (every sample c) densifies to a flat grid of c. */
  lemma InterpolateConstant(heights: seq<real>, c: real)
    requires |heights| == SampleCount
    requires forall i :: 0 <= i < SampleCount ==> heights[i] == c
    ensures Interpolate(heights) == Success(seq(CellCount, _ => c))
  {
    InterpolateWithinBounds(heights, c, c);
    InterpolateIsDenseGrid(heights);
    var g := Interpolate(heights).value;
    forall p | 0 <= p < CellCount
      ensures g[p] == c
    {
      assert g[p] in g;
    }
    assert g == seq(CellCount, _ => c);
  }

  /**
   * On a strictly increasing sparse map every mean inserted into an outer
   * row lies strictly between the two horizontal neighbours it averages.
   */
  lemma InterpolateOuterMidpoints(heights: seq<real>, k: nat, j: nat)
    requires |heights| == SampleCount
    requires forall a, b :: 0 <= a < b < SampleCount ==> heights[a] < heights[b]
    requires k <= 8 && j <= 7
    ensures Interpolate(heights).Success? && |Interpolate(heights).value| == CellCount
    ensures var g := Interpolate(heights).value;
      heights[17 * k + j] < g[17 * (2 * k) + 2 * j + 1] < heights[17 * k + j + 1]
  {
    OuterRowCells(heights, k, j);
  }

  /**
   * On a strictly increasing sparse map every mean inserted into an inner
   * row lies strictly between the outer samples above and below it.
   */
  lemma InterpolateInnerMidpoints(heights: seq<real>, k: nat, j: nat)
    requires |heights| == SampleCount
    requires forall a, b :: 0 <= a < b < SampleCount ==> heights[a] < heights[b]
    requires k <= 7 && j <= 8
    ensures Interpolate(heights).Success? && |Interpolate(heights).value| == CellCount
    ensures var g := Interpolate(heights).value;
      heights[17 * k + j] < g[17 * (2 * k + 1) + 2 * j] < heights[17 * (k + 1) + j]
  {
    InnerRowCells(heights, k, j);
  }
}

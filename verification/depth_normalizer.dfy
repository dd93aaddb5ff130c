/**
  Depth normalisation: raw 16-bit depth samples become signed distances, with
  zero (no reading) flagged by a sentinel; plus the neighbourhood average that
  the source keeps as an inactive alternative (`RefreshData`, `GetAvg` in
  Assets/Scripts/BodyParticles.cs).
 */
module DepthNormalizer {
  import opened Numerics
  import opened GridIndex

  /** A C# `ushort`. */
  type UShort = n: int | 0 <= n < 0x1_0000

  /** The value a zero (unknown) raw sample normalises to. */
  const InvalidDepth: real := -1.0

  /** The value `GetAvg` substitutes for a zero sample. */
  const InvalidSubstitute: int := 4500

  /** One raw sample divided by the depth scale, or the sentinel for a zero sample. */
  function NormalizeSample(raw: UShort, depthScale: real): (d: real)
    requires depthScale != 0.0
    ensures raw == 0 ==> d == InvalidDepth
    ensures 0.0 < depthScale ==> (d == InvalidDepth <==> raw == 0)
    ensures 0.0 < depthScale && raw != 0 ==> 0.0 < d
  {
    if raw == 0 then InvalidDepth else raw as real / depthScale
  }

  /** A non-zero sample is recovered by multiplying back by the scale. */
  lemma NormalizeSampleInverse(raw: UShort, depthScale: real)
    requires depthScale != 0.0 && raw != 0
    ensures NormalizeSample(raw, depthScale) * depthScale == raw as real
  {
  }

  /** Normalises the in-grid part of a raw depth buffer, row by row. */
  method RefreshData(depthData: seq<UShort>, width: nat, height: nat, depthScale: real) returns (depths: seq<real>)
    requires width * height <= |depthData|
    requires depthScale != 0.0
    ensures |depths| == |depthData|
    ensures forall i :: 0 <= i < width * height ==> depths[i] == NormalizeSample(depthData[i], depthScale)
    ensures forall i :: width * height <= i < |depthData| ==> depths[i] == 0.0
  {
    depths := seq(|depthData|, _ => 0.0);
    var y, rowStart := 0, 0;
    while y < height
      invariant 0 <= y <= height
      invariant rowStart == y * width && rowStart <= width * height
      invariant |depths| == |depthData|
      invariant forall i :: 0 <= i < rowStart ==> depths[i] == NormalizeSample(depthData[i], depthScale)
      invariant forall i :: rowStart <= i < |depths| ==> depths[i] == 0.0
    {
      MulMonotone(y + 1, height, width);
      var x := 0;
      while x < width
        invariant 0 <= x <= width
        invariant rowStart + width <= width * height
        invariant |depths| == |depthData|
        invariant forall i :: 0 <= i < rowStart + x ==> depths[i] == NormalizeSample(depthData[i], depthScale)
        invariant forall i :: rowStart + x <= i < |depths| ==> depths[i] == 0.0
      {
        var index := DepthIndex(x, y, width);
        assert index == rowStart + x;
        depths := depths[index := NormalizeSample(depthData[index], depthScale)];
        x := x + 1;
      }
      assert rowStart + width == (y + 1) * width;
      y, rowStart := y + 1, rowStart + width;
    }
    assert rowStart == width * height;
  }

  /** Worked case: a 2 x 1 frame `[0, 500]` at scale 1000 normalises to `[-1, 0.5]`. */
  method RefreshTwoPixels() returns (depths: seq<real>)
    ensures depths == [-1.0, 0.5]
  {
    depths := RefreshData([0, 500], 2, 1, 1000.0);
  }

  // The inactive smoothing alternative

  /** The index of the grid pixel nearest to (x1, y1) when both lie at or past the
      origin: each coordinate is clamped to the last column or row. */
  function ClampedIndex(x1: nat, y1: nat, width: int, height: int): (i: int)
    requires 1 <= width && 1 <= height
    ensures 0 <= i < width * height
  {
    var cx := Min(x1, width - 1);
    var cy := Min(y1, height - 1);
    DepthIndexInRange(cx, cy, width, height);
    DepthIndex(cx, cy, width)
  }

  /** Inside the grid the clamp changes nothing. */
  lemma ClampedIndexInGrid(x1: nat, y1: nat, width: int, height: int)
    requires x1 < width && y1 < height
    ensures ClampedIndex(x1, y1, width, height) == DepthIndex(x1, y1, width)
  {
  }

  /** One sample of the averaging window, with a zero reading replaced. */
  function WindowSample(depthData: seq<UShort>, x1: nat, y1: nat, width: int, height: int): (v: int)
    requires 1 <= width && 1 <= height && width * height <= |depthData|
    ensures 1 <= v < 0x1_0000
  {
    var raw := depthData[ClampedIndex(x1, y1, width, height)];
    if raw == 0 then InvalidSubstitute else raw
  }

  /** The sum of the first `k` samples of window row `y1`, starting at column `x`. */
  function RowSum(depthData: seq<UShort>, x: nat, y1: nat, width: int, height: int, k: nat): int
    requires 1 <= width && 1 <= height && width * height <= |depthData|
  {
    if k == 0 then 0
    else RowSum(depthData, x, y1, width, height, k - 1) + WindowSample(depthData, x + k - 1, y1, width, height)
  }

  lemma RowSumStep(depthData: seq<UShort>, x: nat, y1: nat, width: int, height: int, k: nat)
    requires 1 <= width && 1 <= height && width * height <= |depthData|
    ensures RowSum(depthData, x, y1, width, height, k + 1)
            == RowSum(depthData, x, y1, width, height, k) + WindowSample(depthData, x + k, y1, width, height)
  {
  }

  /** The sum of the first `j` four-sample rows of the window whose corner is (x, y). */
  function WindowSum(depthData: seq<UShort>, x: nat, y: nat, width: int, height: int, j: nat): int
    requires 1 <= width && 1 <= height && width * height <= |depthData|
  {
    if j == 0 then 0
    else WindowSum(depthData, x, y, width, height, j - 1) + RowSum(depthData, x, y + j - 1, width, height, 4)
  }

  lemma MeanOfSixteen(sum: int)
    requires 16 <= sum <= 16 * 0xFFFF
    ensures 1.0 <= sum as real / 16.0 <= 65535.0
  {
  }

  lemma WindowSumStep(depthData: seq<UShort>, x: nat, y: nat, width: int, height: int, j: nat)
    requires 1 <= width && 1 <= height && width * height <= |depthData|
    ensures WindowSum(depthData, x, y, width, height, j + 1)
            == WindowSum(depthData, x, y, width, height, j) + RowSum(depthData, x, y + j, width, height, 4)
  {
  }

  /** Each of the `k` summed samples lies in [1, 65535]. */
  lemma {:induction false} RowSumBounds(depthData: seq<UShort>, x: nat, y1: nat, width: int, height: int, k: nat)
    requires 1 <= width && 1 <= height && width * height <= |depthData|
    ensures k <= RowSum(depthData, x, y1, width, height, k) <= k * 0xFFFF
  {
    if k > 0 {
      RowSumBounds(depthData, x, y1, width, height, k - 1);
    }
  }

  /** Each of the `j` summed rows of four samples lies in [4, 4 * 65535]. */
  lemma {:induction false} WindowSumBounds(depthData: seq<UShort>, x: nat, y: nat, width: int, height: int, j: nat)
    requires 1 <= width && 1 <= height && width * height <= |depthData|
    ensures 4 * j <= WindowSum(depthData, x, y, width, height, j) <= 4 * j * 0xFFFF
  {
    if j > 0 {
      WindowSumBounds(depthData, x, y, width, height, j - 1);
      RowSumBounds(depthData, x, y + j - 1, width, height, 4);
    }
  }

  /** Both loop bounds `x + 4` and `y + 4` of the window fit in an `int`. */
  predicate WindowFits(x: nat, y: nat)
  {
    x + 4 <= Int32Max && y + 4 <= Int32Max
  }

  /** The unchecked loop bound `start + 4` is the true sum when it fits, and
      wraps to a negative value for a start within 4 of `int.MaxValue`. */
  lemma LoopBound(start: nat)
    requires start <= Int32Max
    ensures start + 4 <= Int32Max ==> Wrap32(start + 4) == start + 4
    ensures Int32Max < start + 4 ==> Wrap32(start + 4) < 0
  {
  }

  /** The mean of the 4 x 4 window whose corner is (x, y), clamped at the far
      edges, with zero readings counted as the substitute. The loop bounds
      `x + 4` and `y + 4` wrap like `int` additions, so a start within 4 of
      `int.MaxValue` sums nothing and yields 0. */
  method GetAvg(depthData: seq<UShort>, x: nat, y: nat, width: int, height: int) returns (avg: real)
    requires 1 <= width && 1 <= height && width * height <= |depthData|
    requires x <= Int32Max && y <= Int32Max
    ensures WindowFits(x, y) ==> avg == WindowSum(depthData, x, y, width, height, 4) as real / 16.0
    ensures WindowFits(x, y) ==> 1.0 <= avg <= 65535.0
    ensures !WindowFits(x, y) ==> avg == 0.0
  {
    var yEnd, xEnd := Wrap32(y + 4), Wrap32(x + 4);
    LoopBound(y);
    LoopBound(x);
    var sum := 0;
    var y1 := y;
    while y1 < yEnd
      invariant y <= y1 && (y1 == y || y1 <= yEnd)
      invariant sum == (if WindowFits(x, y) then WindowSum(depthData, x, y, width, height, y1 - y) else 0)
    {
      var x1 := x;
      while x1 < xEnd
        invariant x <= x1 && (x1 == x || x1 <= xEnd)
        invariant sum == (if WindowFits(x, y) then WindowSum(depthData, x, y, width, height, y1 - y) + RowSum(depthData, x, y1, width, height, x1 - x) else 0)
      {
        var fullIndex := ClampedIndex(x1, y1, width, height);
        var sample;
        if depthData[fullIndex] == 0 {
          sample := InvalidSubstitute;
        } else {
          sample := depthData[fullIndex];
        }
        assert sample == WindowSample(depthData, x + (x1 - x), y1, width, height);
        RowSumStep(depthData, x, y1, width, height, x1 - x);
        sum := sum + sample;
        x1 := x1 + 1;
      }
      if WindowFits(x, y) {
        WindowSumStep(depthData, x, y, width, height, y1 - y);
      }
      y1 := y1 + 1;
    }
    avg := sum as real / 16.0;
    if WindowFits(x, y) {
      WindowSumBounds(depthData, x, y, width, height, 4);
      MeanOfSixteen(sum);
    }
  }
}

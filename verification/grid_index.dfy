/**
  Index arithmetic over the row-major depth grid and the cross-resolution
  colour grid (Assets/Scripts/BodyParticles.cs, `StartShow` and `RefreshData`).
 */
module GridIndex {
  import opened Numerics

  /** The row-major index of pixel (x, y) in a grid `width` pixels wide. */
  function DepthIndex(x: int, y: int, width: int): int
  {
    x + y * width
  }

  /** A row-major index stays inside a `width` x `height` grid. */
  lemma {:induction false} DepthIndexInRange(x: int, y: int, width: int, height: int)
    requires 0 <= x < width && 0 <= y < height
    ensures 0 <= DepthIndex(x, y, width) < width * height
  {
    assert 0 <= y * width by { MulNonNegative(y, width); }
    assert (y + 1) * width <= height * width by { MulMonotone(y + 1, height, width); }
  }

  /** The column and the row can be read back from the index, so distinct pixels
      of a row-major grid have distinct indices. */
  lemma {:induction false} DepthIndexInverse(x: int, y: int, width: int)
    requires 0 <= x < width
    ensures DepthIndex(x, y, width) % width == x
    ensures DepthIndex(x, y, width) / width == y
  {
    var i := DepthIndex(x, y, width);
    DivisionUnique(i, width, y, x);
  }

  lemma DepthIndexInjective(x1: int, y1: int, x2: int, y2: int, width: int)
    requires 0 <= x1 < width && 0 <= x2 < width
    ensures DepthIndex(x1, y1, width) == DepthIndex(x2, y2, width) <==> x1 == x2 && y1 == y2
  {
    DepthIndexInverse(x1, y1, width);
    DepthIndexInverse(x2, y2, width);
  }

  /** Comparing row-major indices of in-grid pixels compares rows first, then columns. */
  lemma DepthIndexOrder(x1: int, y1: int, x2: int, y2: int, width: int)
    requires 0 <= x1 < width && 0 <= x2 < width
    ensures DepthIndex(x1, y1, width) < DepthIndex(x2, y2, width) <==> y1 < y2 || (y1 == y2 && x1 < x2)
  {
    if y1 < y2 {
      MulMonotone(y1 + 1, y2, width);
    } else if y2 < y1 {
      MulMonotone(y2 + 1, y1, width);
    }
  }

  /** The normalised texture coordinate `(x / width, y / height)` of a pixel. */
  function UV(x: int, y: int, width: int, height: int): (uv: (real, real))
    requires 0 <= x < width && 0 <= y < height
    ensures 0.0 <= uv.0 < 1.0 && 0.0 <= uv.1 < 1.0
  {
    (x as real / width as real, y as real / height as real)
  }

  /** Scaling a texture coordinate back by the frame size gives the pixel. */
  lemma UVScalesBack(x: int, y: int, width: int, height: int)
    requires 0 <= x < width && 0 <= y < height
    ensures UV(x, y, width, height).0 * width as real == x as real
    ensures UV(x, y, width, height).1 * height as real == y as real
  {
  }

  /** The cell of a grid `size` cells wide that coordinate `u` falls on: `(int)(u * size)`. */
  function Cell(u: real, size: int): (c: int)
    ensures 0.0 <= u < 1.0 && 0 < size ==> 0 <= c < size
  {
    if 0.0 <= u < 1.0 && 0 < size then
      ScaledBelow(u, size);
      Trunc(u * size as real)
    else
      Trunc(u * size as real)
  }

  /** The index of the colour pixel that a depth pixel falls on: the texture
      coordinate is scaled to the colour frame and each axis truncated. */
  function ColorIndex(x: int, y: int, depthWidth: int, depthHeight: int, colorWidth: int, colorHeight: int): (ci: int)
    requires 0 <= x < depthWidth && 0 <= y < depthHeight
    ensures 0 < colorWidth && 0 < colorHeight ==> 0 <= ci < colorWidth * colorHeight
  {
    var uv := UV(x, y, depthWidth, depthHeight);
    var column := Cell(uv.0, colorWidth);
    var row := Cell(uv.1, colorHeight);
    if 0 < colorWidth && 0 < colorHeight then
      DepthIndexInRange(column, row, colorWidth, colorHeight);
      DepthIndex(column, row, colorWidth)
    else
      DepthIndex(column, row, colorWidth)
  }

  /** Decoding a colour index as a row-major pixel of the colour frame gives the
      colour pixel whose cell contains the depth pixel's scaled corner. */
  lemma ColorIndexCoversPixel(x: int, y: int, depthWidth: int, depthHeight: int, colorWidth: int, colorHeight: int)
    requires 0 <= x < depthWidth && 0 <= y < depthHeight
    requires 0 < colorWidth && 0 < colorHeight
    ensures var ci := ColorIndex(x, y, depthWidth, depthHeight, colorWidth, colorHeight);
            && 0 <= ci / colorWidth < colorHeight
            && Covers(ci % colorWidth, x, depthWidth, colorWidth)
            && Covers(ci / colorWidth, y, depthHeight, colorHeight)
  {
    var ci := ColorIndex(x, y, depthWidth, depthHeight, colorWidth, colorHeight);
    var column := Cell(x as real / depthWidth as real, colorWidth);
    var row := Cell(y as real / depthHeight as real, colorHeight);
    assert ci % colorWidth == column && ci / colorWidth == row by {
      assert ci == DepthIndex(column, row, colorWidth);
      DepthIndexInverse(column, row, colorWidth);
    }
    CellCovers(x, depthWidth, colorWidth);
    CellCovers(y, depthHeight, colorHeight);
  }

  /** Along one axis, `cell` of a `to`-cell axis spans pixel `x` of a
      `from`-pixel axis: `cell <= x * to / from < cell + 1`. */
  predicate Covers(cell: int, x: int, from: int, to: int)
  {
    cell as real * from as real <= x as real * to as real < (cell + 1) as real * from as real
  }

  /** The cell of pixel `x` along one axis covers it. */
  lemma CellCovers(x: int, from: int, to: int)
    requires 0 <= x < from && 0 < to
    ensures Covers(Cell(x as real / from as real, to), x, from, to)
  {
    var u := x as real / from as real;
    assert u * from as real == x as real;
    CellBounds(u, x, from, to, Cell(u, to));
  }

  // Row-major scan

  datatype Pixel = Pixel(x: nat, y: nat)

  /** Row-major order: an earlier row, or the same row and an earlier column. */
  predicate Before(a: Pixel, b: Pixel)
  {
    a.y < b.y || (a.y == b.y && a.x < b.x)
  }

  /** The pixels of row `y` left of column `x` that satisfy `keep`, left to right. */
  function RowScan(keep: Pixel -> bool, y: nat, x: nat): (ps: seq<Pixel>)
    ensures forall i :: 0 <= i < |ps| ==> ps[i].y == y && ps[i].x < x && keep(ps[i])
    ensures forall px: Pixel :: px.y == y && px.x < x && keep(px) ==> px in ps
    ensures forall i, j :: 0 <= i < j < |ps| ==> ps[i].x < ps[j].x
  {
    if x == 0 then []
    else if keep(Pixel(x - 1, y)) then RowScan(keep, y, x - 1) + [Pixel(x - 1, y)]
    else RowScan(keep, y, x - 1)
  }

  /** The pixels of the rows above row `y` of a grid `width` pixels wide that
      satisfy `keep`, in row-major order. */
  function GridScan(keep: Pixel -> bool, width: nat, y: nat): (ps: seq<Pixel>)
    ensures forall i :: 0 <= i < |ps| ==> ps[i].y < y && ps[i].x < width && keep(ps[i])
    ensures forall px: Pixel :: px.y < y && px.x < width && keep(px) ==> px in ps
    ensures forall i, j :: 0 <= i < j < |ps| ==> Before(ps[i], ps[j])
  {
    if y == 0 then [] else GridScan(keep, width, y - 1) + RowScan(keep, y - 1, width)
  }

  // Arithmetic helpers

  lemma MulNonNegative(a: int, b: int)
    requires 0 <= a && 0 <= b
    ensures 0 <= a * b
  {
  }

  lemma MulMonotone(a: int, b: int, c: int)
    requires a <= b && 0 <= c
    ensures a * c <= b * c
  {
    assert b * c - a * c == (b - a) * c;
    MulNonNegative(b - a, c);
  }

  /** Euclidean division has one quotient and remainder. */
  lemma DivisionUnique(n: int, d: int, q: int, r: int)
    requires 0 <= r < d && n == r + q * d
    ensures n % d == r && n / d == q
  {
    var q', r' := n / d, n % d;
    assert n == r' + q' * d;
    if q' < q {
      MulMonotone(q' + 1, q, d);
      assert false;
    } else if q < q' {
      MulMonotone(q + 1, q', d);
      assert false;
    }
  }

  /** A coordinate in [0, 1) scaled by a positive size truncates into [0, size). */
  lemma ScaledBelow(u: real, size: int)
    requires 0.0 <= u < 1.0 && 0 < size
    ensures 0 <= Trunc(u * size as real) < size
  {
    assert u * size as real < size as real;
  }

  /** The truncated scaled coordinate brackets the pixel's position in the other grid. */
  lemma CellBounds(u: real, x: int, from: int, to: int, cell: int)
    requires 0 < from && 0 < to && 0.0 <= u && u * from as real == x as real
    requires cell == Trunc(u * to as real)
    ensures cell as real * from as real <= x as real * to as real < (cell + 1) as real * from as real
  {
    var s := u * to as real;
    var c, f := cell as real, from as real;
    assert c <= s < c + 1.0;
    assert (cell + 1) as real == c + 1.0;
    assert s * f == x as real * to as real;
    RealMulMonotone(c, s, f);
    RealMulMonotone(s, c + 1.0, f);
    assert (cell + 1) as real * f == (c + 1.0) * f;
    assert s * f < (c + 1.0) * f;
    assert x as real * to as real < (cell + 1) as real * from as real;
  }

  lemma RealMulMonotone(a: real, b: real, f: real)
    requires 0.0 < f
    ensures a <= b ==> a * f <= b * f
    ensures a < b ==> a * f < b * f
  {
    assert b * f - a * f == (b - a) * f;
  }
}

/**
 * The per-pixel Roberts-cross filter: clamped neighbour indices, the 2x2 window of samples
 * it reads, the gradient magnitude, and the routine that seeks the source cursor four
 * times and stores one result sample.
 */
module EdgeFilter {
  import opened IntMath
  import opened Encodings
  import opened Raster

  /** The clamped previous index, max(i - 1, 0). The filter computes it and never uses it. */
  function PrevIndex(i: int): (p: int)
    ensures 0 <= p
    ensures 0 < i ==> p == i - 1
    ensures 0 <= i ==> p <= i
  {
    if i - 1 > 0 then i - 1 else 0
  }

  /** The clamped next index, min(i + 1, size - 1): inside the raster, and i itself only on the last one. */
  function NextIndex(i: int, size: int): (n: int)
    ensures 0 <= i < size ==> i <= n < size
    ensures 0 <= i < size ==> (n == i <==> i == size - 1)
    ensures 0 <= i < size - 1 ==> n == i + 1
  {
    if i + 1 < size - 1 then i + 1 else size - 1
  }

  /** The four samples read for one pixel, named as the filter names them. */
  datatype Window = Window(right: int, down: int, lowerRight: int, mid: int)

  /** The positions the filter seeks, in order: right, down, lower-right, mid. */
  function Seeks(rows: int, cols: int, row: int, col: int): (s: seq<(int, int)>)
    ensures |s| == 4 && s[3] == (row, col)
    ensures s[0].0 == s[3].0 && s[1].1 == s[3].1 && s[2] == (s[1].0, s[0].1)
    ensures 0 <= row < rows && 0 <= col < cols ==> forall i :: 0 <= i < 4 ==>
      row <= s[i].0 <= row + 1 && s[i].0 < rows && col <= s[i].1 <= col + 1 && s[i].1 < cols
  {
    var nextCol := NextIndex(col, cols);
    var nextRow := NextIndex(row, rows);
    [(row, nextCol), (nextRow, col), (nextRow, nextCol), (row, col)]
  }

  /** All four seeks leave the source cursor valid. */
  predicate SeeksValid(available: (int, int) -> bool, rows: int, cols: int, row: int, col: int): (v: bool)
    ensures 0 <= row < rows && 0 <= col < cols ==>
      (v <==> forall i :: 0 <= i < 4 ==>
        var (r, c) := Seeks(rows, cols, row, col)[i];
        0 <= r < rows && 0 <= c < cols && available(r, c))
  {
    var s := Seeks(rows, cols, row, col);
    available(s[0].0, s[0].1) && available(s[1].0, s[1].1)
      && available(s[2].0, s[2].1) && available(s[3].0, s[3].1)
  }

  /** The window at (row, col); on the last row or column the clamped reads repeat the pixel's own row or column. */
  function WindowAt(g: Grid, rows: int, cols: int, row: int, col: int): (w: Window)
    requires IsGrid(g, rows, cols) && 0 <= row < rows && 0 <= col < cols
    ensures w.mid == g[row][col]
    ensures row < rows - 1 && col < cols - 1 ==>
      w == Window(g[row][col + 1], g[row + 1][col], g[row + 1][col + 1], g[row][col])
    ensures row == rows - 1 ==> w.down == w.mid && w.lowerRight == w.right
    ensures col == cols - 1 ==> w.right == w.mid && w.lowerRight == w.down
    ensures row == rows - 1 && col < cols - 1 ==> w.right == g[row][col + 1]
    ensures col == cols - 1 && row < rows - 1 ==> w.down == g[row + 1][col]
  {
    var s := Seeks(rows, cols, row, col);
    Window(g[s[0].0][s[0].1], g[s[1].0][s[1].1], g[s[2].0][s[2].1], g[s[3].0][s[3].1])
  }

  /** gx * gx + gy * gy with gx = mid - lowerRight and gy = right - down. */
  function SquaredMagnitude(w: Window): (s: int)
    ensures s >= 0
  {
    var gx := w.mid - w.lowerRight;
    var gy := w.right - w.down;
    gx * gx + gy * gy
  }

  /** The gradient magnitude truncated to an integer: the floor of sqrt(gx * gx + gy * gy). */
  function Magnitude(w: Window): (m: nat)
    ensures m * m <= SquaredMagnitude(w) < (m + 1) * (m + 1)
  {
    ISqrt(SquaredMagnitude(w))
  }

  /** The value the filter stores for pixel (row, col). */
  function Edge(g: Grid, rows: int, cols: int, row: int, col: int): (e: nat)
    requires IsGrid(g, rows, cols) && 0 <= row < rows && 0 <= col < cols
    ensures var nextRow, nextCol := NextIndex(row, rows), NextIndex(col, cols);
      var gx, gy := g[row][col] - g[nextRow][nextCol], g[row][nextCol] - g[nextRow][col];
      e * e <= gx * gx + gy * gy < (e + 1) * (e + 1)
  {
    var w := WindowAt(g, rows, cols, row, col);
    var nextRow, nextCol := NextIndex(row, rows), NextIndex(col, cols);
    assert w == Window(g[row][nextCol], g[nextRow][col], g[nextRow][nextCol], g[row][col]);
    Magnitude(w)
  }

  /** Two rasters that agree on the 2x2 block at (row, col) give the same edge value there. */
  lemma EdgeDependsOnlyOnBlock(g: Grid, h: Grid, rows: int, cols: int, row: int, col: int)
    requires IsGrid(g, rows, cols) && IsGrid(h, rows, cols)
    requires 0 <= row < rows && 0 <= col < cols
    requires var nextRow, nextCol := NextIndex(row, rows), NextIndex(col, cols);
      g[row][col] == h[row][col] && g[row][nextCol] == h[row][nextCol]
      && g[nextRow][col] == h[nextRow][col] && g[nextRow][nextCol] == h[nextRow][nextCol]
    ensures Edge(g, rows, cols, row, col) == Edge(h, rows, cols, row, col)
  {
  }

  /** On the last row the squared magnitude is 2 * (mid - right)^2. */
  lemma LastRowSquaredMagnitude(g: Grid, rows: int, cols: int, col: int)
    requires IsGrid(g, rows, cols) && 0 < rows && 0 <= col < cols
    ensures var row, nextCol := rows - 1, NextIndex(col, cols);
      SquaredMagnitude(WindowAt(g, rows, cols, row, col))
        == 2 * ((g[row][col] - g[row][nextCol]) * (g[row][col] - g[row][nextCol]))
  {
  }

  /** On the last column the squared magnitude is 2 * (mid - down)^2. */
  lemma LastColumnSquaredMagnitude(g: Grid, rows: int, cols: int, row: int)
    requires IsGrid(g, rows, cols) && 0 <= row < rows && 0 < cols
    ensures var col, nextRow := cols - 1, NextIndex(row, rows);
      SquaredMagnitude(WindowAt(g, rows, cols, row, col))
        == 2 * ((g[row][col] - g[nextRow][col]) * (g[row][col] - g[nextRow][col]))
  {
  }

  /** The bottom-right pixel compares itself with itself: its edge value is 0. */
  lemma CornerIsZero(g: Grid, rows: int, cols: int)
    requires IsGrid(g, rows, cols) && 0 < rows && 0 < cols
    ensures Edge(g, rows, cols, rows - 1, cols - 1) == 0
  {
    var w := WindowAt(g, rows, cols, rows - 1, cols - 1);
    assert SquaredMagnitude(w) == 0;
    ISqrtUnique(0, 0);
  }

  /** The 2x2 raster [[10, 20], [30, 40]] of unsigned bytes gives [[31, 28], [14, 0]]. */
  lemma TwoByTwoScenario(g: Grid)
    requires g == [[10, 20], [30, 40]]
    ensures Edge(g, 2, 2, 0, 0) == 31 && Edge(g, 2, 2, 0, 1) == 28
    ensures Edge(g, 2, 2, 1, 0) == 14 && Edge(g, 2, 2, 1, 1) == 0
  {
    assert Edge(g, 2, 2, 0, 0) == 31 by {
      assert WindowAt(g, 2, 2, 0, 0) == Window(20, 30, 40, 10);
      assert SquaredMagnitude(Window(20, 30, 40, 10)) == 1000;
      ISqrtUnique(1000, 31);
    }
    assert Edge(g, 2, 2, 0, 1) == 28 by {
      assert WindowAt(g, 2, 2, 0, 1) == Window(20, 40, 40, 20);
      assert SquaredMagnitude(Window(20, 40, 40, 20)) == 800;
      ISqrtUnique(800, 28);
    }
    assert Edge(g, 2, 2, 1, 0) == 14 by {
      assert WindowAt(g, 2, 2, 1, 0) == Window(40, 30, 40, 30);
      assert SquaredMagnitude(Window(40, 30, 40, 30)) == 200;
      ISqrtUnique(200, 14);
    }
    CornerIsZero(g, 2, 2);
  }

  /**
   * Filter pixel (row, col) of the source under `src` into the cell (destRow, destCol) of
   * `dest`, the cell the caller's write cursor points at. If any seek leaves the source
   * cursor invalid, return without writing. The magnitude must fit the sample type: the
   * host's conversion of an out-of-range value is undefined.
   */
  method EdgeDetection(dest: array2<int>, destRow: int, destCol: int, enc: EncodingType,
                       src: SourceAccessor, row: int, col: int, rowSize: int, colSize: int)
    requires 0 <= destRow < dest.Length0 && 0 <= destCol < dest.Length1
    requires dest != src.raster
    requires src.raster.Length0 == rowSize && src.raster.Length1 == colSize
    requires 0 <= row < rowSize && 0 <= col < colSize
    requires enc.IsInteger()
    requires SeeksValid(src.available, rowSize, colSize, row, col) ==>
      enc.InRange(Edge(Snapshot(src.raster), rowSize, colSize, row, col))
    modifies dest, src
    ensures dest[destRow, destCol] ==
      if SeeksValid(src.available, rowSize, colSize, row, col)
      then Edge(Snapshot(src.raster), rowSize, colSize, row, col)
      else old(dest[destRow, destCol])
    ensures forall r, c ::
      0 <= r < dest.Length0 && 0 <= c < dest.Length1 && (r, c) != (destRow, destCol) ==>
        dest[r, c] == old(dest[r, c])
  {
    var prevCol := PrevIndex(col);  // unused, as in the filter
    var prevRow := PrevIndex(row);  // unused, as in the filter
    var nextCol := NextIndex(col, colSize);
    var nextRow := NextIndex(row, rowSize);

    src.ToPixel(row, nextCol);
    if !src.IsValid() { return; }
    var rightVal := src.Column();

    src.ToPixel(nextRow, col);
    if !src.IsValid() { return; }
    var downVal := src.Column();

    src.ToPixel(nextRow, nextCol);
    if !src.IsValid() { return; }
    var lowerRightVal := src.Column();

    src.ToPixel(row, col);
    if !src.IsValid() { return; }
    var midVal := src.Column();

    ghost var g := Snapshot(src.raster);
    assert Window(rightVal, downVal, lowerRightVal, midVal) == WindowAt(g, rowSize, colSize, row, col);
    dest[destRow, destCol] := Magnitude(Window(rightVal, downVal, lowerRightVal, midVal));
  }
}

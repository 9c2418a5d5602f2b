/**
 * Rasters: a single band of samples as a value (Grid), the host's raster element, and the
 * two cursors the filter uses, a read cursor over the source and a write cursor over the
 * result. A cursor is valid when its position lies inside the raster and the host can
 * reach the storage there; the host's paging is not modelled, so that availability is given.
 */
module Raster {
  import opened Encodings

  /** Samples of one band, row-major: g[row][col]. */
  type Grid = seq<seq<int>>

  predicate IsGrid(g: Grid, rows: int, cols: int) {
    |g| == rows && forall r :: 0 <= r < |g| ==> |g[r]| == cols
  }

  /** The samples an array currently holds, as a Grid. */
  ghost function Snapshot(a: array2<int>): (g: Grid)
    reads a
    ensures IsGrid(g, a.Length0, a.Length1)
  {
    seq(a.Length0, r requires 0 <= r < a.Length0 reads a =>
      seq(a.Length1, c requires 0 <= c < a.Length1 reads a => a[r, c]))
  }

  /** A single-band raster element: its name, its encoding and its samples. */
  class RasterElement {
    const name: string
    const encoding: EncodingType
    const data: array2<int>

    constructor (name: string, encoding: EncodingType, data: array2<int>)
      ensures this.name == name && this.encoding == encoding && this.data == data
    {
      this.name := name;
      this.encoding := encoding;
      this.data := data;
    }
  }

  /** Read cursor over a source raster. */
  class SourceAccessor {
    const raster: array2<int>
    /** Whether the host can reach the stored sample at a position. */
    const available: (int, int) -> bool
    var row: int
    var col: int

    constructor (raster: array2<int>, available: (int, int) -> bool)
      ensures this.raster == raster && this.available == available
      ensures row == 0 && col == 0
    {
      this.raster := raster;
      this.available := available;
      row, col := 0, 0;
    }

    predicate IsValid()
      reads this
    {
      0 <= row < raster.Length0 && 0 <= col < raster.Length1 && available(row, col)
    }

    /** Seek to (r, c); validity is then decided by the new position. */
    method ToPixel(r: int, c: int)
      modifies this
      ensures row == r && col == c
    {
      row, col := r, c;
    }

    /** The sample under the cursor. */
    function Column(): int
      requires IsValid()
      reads this, raster
    {
      raster[row, col]
    }
  }

  /** Write cursor over a result raster, moved one column or one row at a time. */
  class DestAccessor {
    const raster: array2<int>
    /** Whether the host can reach each row of the result's storage. */
    const available: seq<bool>
    var row: int
    var col: int

    constructor (raster: array2<int>, available: seq<bool>)
      ensures this.raster == raster && this.available == available
      ensures row == 0 && col == 0
    {
      this.raster := raster;
      this.available := available;
      row, col := 0, 0;
    }

    /** A valid write cursor points at a cell of the result whose row the host can reach. */
    predicate IsValid(): (v: bool)
      reads this
      ensures v ==> 0 <= row < raster.Length0 && 0 <= col < raster.Length1
    {
      0 <= row < raster.Length0 && 0 <= col < raster.Length1 && row < |available| && available[row]
    }

    method NextColumn()
      modifies this
      ensures row == old(row) && col == old(col) + 1
    {
      col := col + 1;
    }

    /** Move to the first column of the next row. */
    method NextRow()
      modifies this
      ensures row == old(row) + 1 && col == 0
    {
      row, col := row + 1, 0;
    }
  }
}

/**
 * The edge-detection run: input checks, result allocation, the row-major scan that drives
 * the per-pixel filter through a write cursor, per-row progress and abort polling, and the
 * hand-off of the result.
 */
module Robert {
  import opened Encodings
  import opened Raster
  import opened EdgeFilter
  import opened Progress

  const PluginName := "Robert Edge Detection"
  const ResultSuffix := "_Edge_Detection_Result"
  const NoCubeMessage := "A raster cube must be specified."
  const ComplexMessage := "Edge detection cannot be performed on complex types."
  const CreateFailedMessage := "A raster cube could not be created."
  const AbortMessage := PluginName + " has been aborted."
  const AccessFailedMessage := "Unable to access the cube data."

  /** How a run ends; only Success hands a result back (the plug-in returns true). */
  datatype Status = Success | InvalidArguments | NoCube | ComplexData | CreateFailed | Aborted | AccessFailed

  /** The reports that reach the progress sink, which may be absent. */
  function Logged(hasProgress: bool, rs: seq<Report>): seq<Report> {
    if hasProgress then rs else []
  }

  /** The scan stops at row r: abort was requested, or the write cursor is invalid at the row's first column. */
  predicate RowBlocked(aborted: seq<bool>, destAvailable: seq<bool>, cols: int, r: int)
    requires 0 <= r < |aborted| && r < |destAvailable|
  {
    aborted[r] || cols <= 0 || !destAvailable[r]
  }

  /** The first row at which the scan stops, or the row count if it finishes. */
  function FirstBlockedRow(aborted: seq<bool>, destAvailable: seq<bool>, cols: int): (k: nat)
    requires |aborted| == |destAvailable|
    ensures k <= |aborted|
    ensures forall r :: 0 <= r < k ==> !RowBlocked(aborted, destAvailable, cols, r)
    ensures k < |aborted| ==> RowBlocked(aborted, destAvailable, cols, k)
  {
    if |aborted| == 0 || RowBlocked(aborted, destAvailable, cols, 0) then 0
    else
      var k' := FirstBlockedRow(aborted[1..], destAvailable[1..], cols);
      assert forall r :: 0 < r <= k' ==>
        RowBlocked(aborted, destAvailable, cols, r) == RowBlocked(aborted[1..], destAvailable[1..], cols, r - 1);
      1 + k'
  }

  /** The cells of row r with column below n, left to right. */
  function RowCells(r: int, n: nat): seq<(int, int)> {
    seq(n, c => (r, c))
  }

  /** The cells of the first k rows in row-major order: the order in which the scan visits them. */
  function RowMajor(k: nat, cols: nat): seq<(int, int)> {
    if k == 0 then [] else RowMajor(k - 1, cols) + RowCells(k - 1, cols)
  }

  /** p comes strictly before q in row-major order. */
  predicate Before(p: (int, int), q: (int, int)) {
    p.0 < q.0 || (p.0 == q.0 && p.1 < q.1)
  }

  lemma {:induction false} RowMajorLength(k: nat, cols: nat)
    ensures |RowMajor(k, cols)| == k * cols
  {
    if k > 0 {
      RowMajorLength(k - 1, cols);
      assert (k - 1) * cols + cols == k * cols;
    }
  }

  /** A cell occurs in the visit order of the first k rows exactly when its row is below k and its column below cols. */
  lemma {:induction false} RowMajorCells(k: nat, cols: nat)
    ensures forall p :: p in RowMajor(k, cols) <==> 0 <= p.0 < k && 0 <= p.1 < cols
  {
    if k > 0 {
      var a, b := RowMajor(k - 1, cols), RowCells(k - 1, cols);
      assert RowMajor(k, cols) == a + b;
      RowMajorCells(k - 1, cols);
      forall p: (int, int) ensures p in a + b <==> 0 <= p.0 < k && 0 <= p.1 < cols {
        if p in b {
          var i :| 0 <= i < |b| && b[i] == p;
        }
        if p.0 == k - 1 && 0 <= p.1 < cols {
          assert b[p.1] == p;
        }
      }
    }
  }

  /**
   * Each entry of the visit order comes strictly after the one before it in row-major
   * order; with RowMajorCells, every cell of the first k rows is visited exactly once.
   */
  lemma {:induction false} RowMajorOrdered(k: nat, cols: nat)
    ensures forall i, j :: 0 <= i < j < |RowMajor(k, cols)| ==> Before(RowMajor(k, cols)[i], RowMajor(k, cols)[j])
  {
    if k > 0 {
      var a, b := RowMajor(k - 1, cols), RowCells(k - 1, cols);
      RowMajorOrdered(k - 1, cols);
      RowMajorCells(k - 1, cols);
      var v := a + b;
      forall i, j | 0 <= i < j < |v| ensures Before(v[i], v[j]) {
        if j < |a| {
          assert v[i] == a[i] && v[j] == a[j];
        } else if i < |a| {
          assert v[i] == a[i] && a[i] in a;
          assert v[j] == b[j - |a|];
        } else {
          var i', j' := i - |a|, j - |a|;
          assert v[i] == b[i'] == (k - 1, i');
          assert v[j] == b[j'] == (k - 1, j');
        }
      }
    }
  }

  /** A pixel's cell in the result: the edge value when all four seeks succeed, else the value allocation left. */
  function CellValue(g: Grid, rows: int, cols: int, available: (int, int) -> bool, r: int, c: int): int
    requires IsGrid(g, rows, cols) && 0 <= r < rows && 0 <= c < cols
  {
    if SeeksValid(available, rows, cols, r, c) then Edge(g, rows, cols, r, c) else 0
  }

  /** Every edge value the filter converts in row r fits the encoding's sample type. */
  predicate RowCastDefined(g: Grid, rows: int, cols: int, available: (int, int) -> bool, enc: EncodingType, r: int)
    requires IsGrid(g, rows, cols) && enc.IsInteger() && 0 <= r < rows
  {
    forall c :: 0 <= c < cols && SeeksValid(available, rows, cols, r, c) ==> enc.InRange(Edge(g, rows, cols, r, c))
  }

  /** Every edge value the filter converts in the rows below k fits the encoding's sample type. */
  predicate CastDefined(g: Grid, rows: int, cols: int, available: (int, int) -> bool, enc: EncodingType, k: int)
    requires IsGrid(g, rows, cols) && enc.IsInteger()
  {
    forall r :: 0 <= r < k && r < rows ==> RowCastDefined(g, rows, cols, available, enc, r)
  }

  /** RowBlocked is the check the row loop makes: the polled abort flag, or the write cursor at the row's first column. */
  lemma RowBlockedAtCursor(dest: DestAccessor, aborted: seq<bool>, r: int)
    requires |aborted| == |dest.available| == dest.raster.Length0
    requires 0 <= r < dest.raster.Length0 && dest.row == r && dest.col == 0
    ensures RowBlocked(aborted, dest.available, dest.raster.Length1, r) <==> aborted[r] || !dest.IsValid()
  {
  }

  /** The report that ends a scan stopped at a row: abort, or the write cursor's failure. */
  function StopReport(abortRequested: bool): (rep: Report)
    ensures rep.percent == 0 && rep.severity != Normal
    ensures rep.severity == Abort <==> abortRequested
  {
    if abortRequested then Report(AbortMessage, 0, Abort) else Report(AccessFailedMessage, 0, Errors)
  }

  /**
   * The inner loop for one row: filter each column in turn into the cell under the write
   * cursor, then step the cursor one column.
   */
  method FilterRow(src: SourceAccessor, dest: DestAccessor, enc: EncodingType, row: int)
    returns (ghost visits: seq<(int, int)>)
    requires src.raster != dest.raster
    requires src.raster.Length0 == dest.raster.Length0 && src.raster.Length1 == dest.raster.Length1
    requires 0 <= row < src.raster.Length0
    requires dest.row == row && dest.col == 0
    requires forall c :: 0 <= c < dest.raster.Length1 ==> dest.raster[row, c] == 0
    requires enc.IsInteger()
    requires RowCastDefined(Snapshot(src.raster), src.raster.Length0, src.raster.Length1, src.available, enc, row)
    modifies dest.raster, src, dest
    ensures dest.row == row && dest.col == dest.raster.Length1
    ensures visits == RowCells(row, dest.raster.Length1)
    ensures forall c :: 0 <= c < dest.raster.Length1 ==>
      dest.raster[row, c] == CellValue(Snapshot(src.raster), src.raster.Length0, src.raster.Length1, src.available, row, c)
    ensures forall r, c :: 0 <= r < dest.raster.Length0 && r != row && 0 <= c < dest.raster.Length1 ==>
      dest.raster[r, c] == old(dest.raster[r, c])
  {
    var rows, cols := src.raster.Length0, src.raster.Length1;
    ghost var g := Snapshot(src.raster);
    visits := [];
    var col := 0;
    while col < cols
      invariant 0 <= col <= cols
      invariant dest.row == row && dest.col == col
      invariant Snapshot(src.raster) == g
      invariant visits == RowCells(row, col)
      invariant forall c :: 0 <= c < col ==> dest.raster[row, c] == CellValue(g, rows, cols, src.available, row, c)
      invariant forall c :: col <= c < cols ==> dest.raster[row, c] == 0
      invariant forall r, c :: 0 <= r < rows && r != row && 0 <= c < cols ==> dest.raster[r, c] == old(dest.raster[r, c])
    {
      EdgeDetection(dest.raster, dest.row, dest.col, enc, src, row, col, rows, cols);
      visits := visits + [(row, col)];
      dest.NextColumn();
      col := col + 1;
    }
  }

  /**
   * The outer loop: for each row, report progress, poll the abort flag, check the write
   * cursor, filter the row and step the cursor to the next row. It stops at the first row
   * where abort was requested or the cursor is invalid; rows after it are not touched.
   */
  method ScanRows(src: SourceAccessor, dest: DestAccessor, enc: EncodingType, hasProgress: bool, aborted: seq<bool>)
    returns (status: Status, reports: seq<Report>, ghost visits: seq<(int, int)>)
    requires src.raster != dest.raster
    requires src.raster.Length0 == dest.raster.Length0 && src.raster.Length1 == dest.raster.Length1
    requires |aborted| == src.raster.Length0 && |dest.available| == src.raster.Length0
    requires dest.row == 0 && dest.col == 0
    requires forall r, c :: 0 <= r < dest.raster.Length0 && 0 <= c < dest.raster.Length1 ==> dest.raster[r, c] == 0
    requires enc.IsInteger()
    requires CastDefined(Snapshot(src.raster), src.raster.Length0, src.raster.Length1, src.available, enc,
                         FirstBlockedRow(aborted, dest.available, src.raster.Length1))
    modifies dest.raster, src, dest
    ensures var rows, cols := src.raster.Length0, src.raster.Length1;
      var k := FirstBlockedRow(aborted, dest.available, cols);
      && visits == RowMajor(k, cols)
      && (k == rows ==> status == Success && reports == Logged(hasProgress, RowReports(rows, rows)))
      && (k < rows ==>
            && status == (if aborted[k] then Aborted else AccessFailed)
            && reports == Logged(hasProgress, RowReports(k + 1, rows) + [StopReport(aborted[k])]))
    ensures var k := FirstBlockedRow(aborted, dest.available, src.raster.Length1);
      forall r, c :: 0 <= r < dest.raster.Length0 && 0 <= c < dest.raster.Length1 ==>
        dest.raster[r, c] ==
          if r < k then CellValue(Snapshot(src.raster), src.raster.Length0, src.raster.Length1, src.available, r, c)
          else 0
  {
    var rows, cols := src.raster.Length0, src.raster.Length1;
    ghost var g := Snapshot(src.raster);
    ghost var k := FirstBlockedRow(aborted, dest.available, cols);
    reports, visits := [], [];
    var row := 0;
    while row < rows
      invariant 0 <= row <= k
      invariant dest.row == row && dest.col == 0
      invariant Snapshot(src.raster) == g
      invariant reports == Logged(hasProgress, RowReports(row, rows))
      invariant visits == RowMajor(row, cols)
      invariant forall r, c :: 0 <= r < row && 0 <= c < cols ==>
        dest.raster[r, c] == CellValue(g, rows, cols, src.available, r, c)
      invariant forall r, c :: row <= r < rows && 0 <= c < cols ==> dest.raster[r, c] == 0
    {
      if hasProgress {
        reports := reports + [Report(CalculatingMessage, ProgressPercent(row, rows), Normal)];
      }
      if aborted[row] {
        assert RowBlocked(aborted, dest.available, cols, row);
        assert k == row;
        if hasProgress { reports := reports + [StopReport(true)]; }
        return Aborted, reports, visits;
      }
      if !dest.IsValid() {
        assert RowBlocked(aborted, dest.available, cols, row);
        assert k == row;
        if hasProgress { reports := reports + [StopReport(false)]; }
        return AccessFailed, reports, visits;
      }
      assert !RowBlocked(aborted, dest.available, cols, row);
      var rowVisits := FilterRow(src, dest, enc, row);
      visits := visits + rowVisits;
      dest.NextRow();
      row := row + 1;
    }
    assert k == rows;
    status := Success;
  }

  /**
   * One run of the plug-in on `cube`. The environment is given as inputs: whether the
   * argument lists exist, whether a progress sink exists, which source samples the host can
   * reach, whether the result raster can be created, the abort flag seen at each row, and
   * which rows of the result the write cursor can reach.
   */
  method Execute(argsPresent: bool, hasProgress: bool, cube: RasterElement?,
                 available: (int, int) -> bool, canCreate: bool,
                 aborted: seq<bool>, destAvailable: seq<bool>)
    returns (status: Status, result: RasterElement?, reports: seq<Report>,
             ghost visits: seq<(int, int)>, ghost createAttempted: bool)
    requires cube != null ==> |aborted| == cube.data.Length0 && |destAvailable| == cube.data.Length0
    requires cube != null && !cube.encoding.IsComplex() ==> cube.encoding.IsInteger()
    requires argsPresent && cube != null && cube.encoding.IsInteger() && canCreate ==>
      CastDefined(Snapshot(cube.data), cube.data.Length0, cube.data.Length1, available, cube.encoding,
                  FirstBlockedRow(aborted, destAvailable, cube.data.Length1))
    ensures (status == Success) == (result != null)
    ensures createAttempted <==> argsPresent && cube != null && !cube.encoding.IsComplex()
    ensures !argsPresent ==> status == InvalidArguments && reports == [] && visits == []
    ensures argsPresent && cube == null ==>
      status == NoCube && reports == Logged(hasProgress, [Report(NoCubeMessage, 0, Errors)]) && visits == []
    ensures argsPresent && cube != null && cube.encoding.IsComplex() ==>
      status == ComplexData && reports == Logged(hasProgress, [Report(ComplexMessage, 0, Errors)]) && visits == []
    ensures argsPresent && cube != null && !cube.encoding.IsComplex() && !canCreate ==>
      status == CreateFailed && reports == Logged(hasProgress, [Report(CreateFailedMessage, 0, Errors)])
      && visits == []
    ensures argsPresent && cube != null && !cube.encoding.IsComplex() && canCreate ==>
      var rows, cols := cube.data.Length0, cube.data.Length1;
      var k := FirstBlockedRow(aborted, destAvailable, cols);
      && visits == RowMajor(k, cols)
      && (k == rows ==>
            status == Success
            && reports == Logged(hasProgress, RowReports(rows, rows) + [Report(CompleteMessage, 100, Normal)]))
      && (k < rows ==>
            && status == (if aborted[k] then Aborted else AccessFailed)
            && reports == Logged(hasProgress, RowReports(k + 1, rows) + [StopReport(aborted[k])]))
    ensures status == Success ==>
      && cube != null && fresh(result) && fresh(result.data)
      && result.name == cube.name + ResultSuffix && result.encoding == cube.encoding
      && result.data.Length0 == cube.data.Length0 && result.data.Length1 == cube.data.Length1
      && (forall r, c :: 0 <= r < result.data.Length0 && 0 <= c < result.data.Length1 ==>
            && result.data[r, c] == CellValue(Snapshot(cube.data), cube.data.Length0, cube.data.Length1, available, r, c)
            && cube.encoding.InRange(result.data[r, c]))
    ensures cube != null ==> unchanged(cube.data)
  {
    visits := [];
    reports := [];
    result := null;
    createAttempted := false;
    if !argsPresent {
      return InvalidArguments, null, [], [], false;
    }
    if cube == null {
      status := NoCube;
      if hasProgress { reports := [Report(NoCubeMessage, 0, Errors)]; }
      return;
    }
    if cube.encoding.IsComplex() {
      status := ComplexData;
      if hasProgress { reports := [Report(ComplexMessage, 0, Errors)]; }
      return;
    }

    var rows, cols := cube.data.Length0, cube.data.Length1;
    var srcAcc := new SourceAccessor(cube.data, available);
    createAttempted := true;
    if !canCreate {
      status := CreateFailed;
      if hasProgress { reports := [Report(CreateFailedMessage, 0, Errors)]; }
      return;
    }
    var data := new int[rows, cols]((r, c) => 0);
    var resultCube := new RasterElement(cube.name + ResultSuffix, cube.encoding, data);
    var destAcc := new DestAccessor(data, destAvailable);

    status, reports, visits := ScanRows(srcAcc, destAcc, cube.encoding, hasProgress, aborted);
    if status != Success {
      return;
    }
    ghost var g := Snapshot(cube.data);
    forall r, c | 0 <= r < rows && 0 <= c < cols
      ensures cube.encoding.InRange(CellValue(g, rows, cols, available, r, c))
    {
      assert RowCastDefined(g, rows, cols, available, cube.encoding, r);
    }
    if hasProgress {
      reports := reports + [Report(CompleteMessage, 100, Normal)];
    }
    result := resultCube;
  }
}

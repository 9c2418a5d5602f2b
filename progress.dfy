/** Progress reports of the edge-detection run and the per-row completion percentage. */
module Progress {

  datatype Severity = Normal | Errors | Abort

  datatype Report = Report(message: string, percent: int, severity: Severity)

  const CalculatingMessage := "Calculating result"
  const CompleteMessage := "Edge Detection is complete."

  /**
   * Percentage reported at the start of `row`: row * 100 / rowCount, computed exactly.
   * The plug-in computes the product in 32-bit unsigned arithmetic; see ProgressPercentAsWritten.
   */
  function ProgressPercent(row: int, rowCount: int): (p: int)
    requires 0 <= row < rowCount
    ensures 0 <= p <= 99
    ensures p * rowCount <= row * 100 < (p + 1) * rowCount
  {
    var p := row * 100 / rowCount;
    assert p * rowCount <= row * 100 < (p + 1) * rowCount;
    assert p * rowCount < 100 * rowCount;
    p
  }

  /** a <= b implies a / d <= b / d. */
  lemma DivMonotone(a: nat, b: nat, d: int)
    requires a <= b && 0 < d
    ensures a / d <= b / d
  {
    var qa, qb := a / d, b / d;
    assert qa * d <= a;
    assert b < qb * d + d;
    assert qa * d < (qb + 1) * d;
    MulCancel(qa, qb + 1, d);
  }

  /** x * d < y * d with d positive implies x < y. */
  lemma MulCancel(x: int, y: int, d: int)
    requires 0 < d && x * d < y * d
    ensures x < y
  {
    assert (y - x) * d == y * d - x * d;
    assert 0 < (y - x) * d;
  }

  /** Later rows never report a smaller percentage. */
  lemma ProgressNonDecreasing(i: int, j: int, rowCount: int)
    requires 0 <= i <= j < rowCount
    ensures ProgressPercent(i, rowCount) <= ProgressPercent(j, rowCount)
  {
    DivMonotone(i * 100, j * 100, rowCount);
  }

  /** The per-row reports of the first k rows. */
  function RowReports(k: nat, rowCount: int): (rs: seq<Report>)
    requires k <= rowCount
    ensures |rs| == k
  {
    if k == 0 then []
    else RowReports(k - 1, rowCount) + [Report(CalculatingMessage, ProgressPercent(k - 1, rowCount), Normal)]
  }

  /**
   * The per-row reports of the first k rows (RowReports fixes their count at k): in row
   * order, of normal severity, each below 100, and never decreasing.
   */
  lemma {:induction false} RowReportsShape(k: nat, rowCount: int)
    requires k <= rowCount
    ensures forall i :: 0 <= i < k ==>
      RowReports(k, rowCount)[i] == Report(CalculatingMessage, ProgressPercent(i, rowCount), Normal)
    ensures forall i :: 0 <= i < k ==> 0 <= RowReports(k, rowCount)[i].percent < 100
    ensures forall i, j :: 0 <= i <= j < k ==> RowReports(k, rowCount)[i].percent <= RowReports(k, rowCount)[j].percent
  {
    if k > 0 {
      RowReportsShape(k - 1, rowCount);
      forall i, j | 0 <= i <= j < k
        ensures RowReports(k, rowCount)[i].percent <= RowReports(k, rowCount)[j].percent
      {
        ProgressNonDecreasing(i, j, rowCount);
      }
    }
  }

  /** The percentage as the plug-in computes it: the product wraps modulo 2^32 before the division. */
  function ProgressPercentAsWritten(row: int, rowCount: int): (p: int)
    requires 0 <= row < rowCount < 0x1_0000_0000
    ensures 0 <= p
    ensures row * 100 < 0x1_0000_0000 ==> p == ProgressPercent(row, rowCount)
  {
    ((row * 100) % 0x1_0000_0000) / rowCount
  }

  /** With 42949674 rows the percentage falls from 99 to 0 between the last two rows. */
  lemma ProgressAsWrittenDecreases()
    ensures ProgressPercentAsWritten(42949672, 42949674) == 99
    ensures ProgressPercentAsWritten(42949673, 42949674) == 0
  {
  }
}

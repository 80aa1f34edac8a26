/** The detector's traversal on its own: visit the cells of a rectangle of centres in row-major
    order and report each cell a decision function accepts, with the value a reader gives for it.
    The decision rule and the samples are parameters here, so these facts hold for any rule. */
module Scan {

  /** A reported cell and its sample; the constructor stores exactly its three arguments. */
  datatype Detection = Detection(x: int, y: int, v: real)

  /** `a` is scanned before `b`: an earlier row, or the same row and an earlier column. */
  predicate Before(a: Detection, b: Detection) {
    a.y < b.y || (a.y == b.y && a.x < b.x)
  }

  predicate RowMajorSorted(s: seq<Detection>) {
    forall i, j :: 0 <= i < j < |s| ==> Before(s[i], s[j])
  }

  lemma SortedConcat(a: seq<Detection>, b: seq<Detection>)
    requires RowMajorSorted(a) && RowMajorSorted(b)
    requires forall i, j :: 0 <= i < |a| && 0 <= j < |b| ==> Before(a[i], b[j])
    ensures RowMajorSorted(a + b)
  {
    forall i, j | 0 <= i < j < |a + b|
      ensures Before((a + b)[i], (a + b)[j])
    {
      if j < |a| {
        assert Before(a[i], a[j]);
      } else if i >= |a| {
        assert Before(b[i - |a|], b[j - |a|]);
      } else {
        assert Before(a[i], b[j - |a|]);
      }
    }
  }

  /** Every detection of rows above `y` comes before every detection of row `y`. */
  lemma EarlierRowsFirst(a: seq<Detection>, b: seq<Detection>, y: int)
    requires forall d :: d in a ==> d.y < y
    requires forall d :: d in b ==> d.y == y
    ensures forall i, j :: 0 <= i < |a| && 0 <= j < |b| ==> Before(a[i], b[j])
  {
    forall i, j | 0 <= i < |a| && 0 <= j < |b|
      ensures Before(a[i], b[j])
    {
      assert a[i] in a && b[j] in b;
    }
  }

  /** Detections of row `y` over the columns [x0, xEnd), left to right. */
  function ScanRow(fires: (int, int) -> bool, sample: (int, int) -> real, y: int, x0: int, xEnd: int): seq<Detection>
    decreases xEnd - x0
  {
    if xEnd <= x0 then []
    else
      var x := xEnd - 1;
      ScanRow(fires, sample, y, x0, x) + (if fires(x, y) then [Detection(x, y, sample(x, y))] else [])
  }

  /** Detections of the rows [y0, yEnd), top to bottom, each over the columns [x0, x1]. */
  function ScanRows(fires: (int, int) -> bool, sample: (int, int) -> real, x0: int, x1: int, y0: int, yEnd: int): seq<Detection>
    decreases yEnd - y0
  {
    if yEnd <= y0 then []
    else ScanRows(fires, sample, x0, x1, y0, yEnd - 1) + ScanRow(fires, sample, yEnd - 1, x0, x1 + 1)
  }

  /** A row's scan reports only accepted cells of that row and of the columns scanned, each with
      its own value. */
  lemma {:induction false} ScanRowSound(fires: (int, int) -> bool, sample: (int, int) -> real, y: int, x0: int, xEnd: int)
    ensures forall d :: d in ScanRow(fires, sample, y, x0, xEnd) ==>
      d.y == y && x0 <= d.x < xEnd && fires(d.x, d.y) && d.v == sample(d.x, d.y)
    decreases xEnd - x0
  {
    if x0 < xEnd {
      ScanRowSound(fires, sample, y, x0, xEnd - 1);
    }
  }

  /** A row's scan reports every accepted cell of the columns scanned. */
  lemma {:induction false} ScanRowComplete(fires: (int, int) -> bool, sample: (int, int) -> real, y: int, x0: int, xEnd: int)
    ensures forall x :: x0 <= x < xEnd && fires(x, y) ==> Detection(x, y, sample(x, y)) in ScanRow(fires, sample, y, x0, xEnd)
    decreases xEnd - x0
  {
    if x0 < xEnd {
      ScanRowComplete(fires, sample, y, x0, xEnd - 1);
    }
  }

  /** A row's scan is left to right. */
  lemma {:induction false} ScanRowSorted(fires: (int, int) -> bool, sample: (int, int) -> real, y: int, x0: int, xEnd: int)
    ensures RowMajorSorted(ScanRow(fires, sample, y, x0, xEnd))
    decreases xEnd - x0
  {
    if x0 < xEnd {
      var x := xEnd - 1;
      ScanRowSorted(fires, sample, y, x0, x);
      ScanRowSound(fires, sample, y, x0, x);
      var prev := ScanRow(fires, sample, y, x0, x);
      if fires(x, y) {
        var d := Detection(x, y, sample(x, y));
        forall i, j | 0 <= i < |prev| && 0 <= j < 1
          ensures Before(prev[i], [d][j])
        {
          assert prev[i] in prev;
        }
        SortedConcat(prev, [d]);
      }
    }
  }

  /** The scan of the rows reports only accepted cells of the rectangle, each with its own value. */
  lemma {:induction false} ScanRowsSound(fires: (int, int) -> bool, sample: (int, int) -> real, x0: int, x1: int, y0: int, yEnd: int)
    ensures forall d :: d in ScanRows(fires, sample, x0, x1, y0, yEnd) ==>
      y0 <= d.y < yEnd && x0 <= d.x <= x1 && fires(d.x, d.y) && d.v == sample(d.x, d.y)
    decreases yEnd - y0
  {
    if y0 < yEnd {
      ScanRowsSound(fires, sample, x0, x1, y0, yEnd - 1);
      ScanRowSound(fires, sample, yEnd - 1, x0, x1 + 1);
    }
  }

  /** The scan of the rows reports every accepted cell of the rectangle. */
  lemma {:induction false} ScanRowsComplete(fires: (int, int) -> bool, sample: (int, int) -> real, x0: int, x1: int, y0: int, yEnd: int)
    ensures forall x, y :: x0 <= x <= x1 && y0 <= y < yEnd && fires(x, y) ==>
      Detection(x, y, sample(x, y)) in ScanRows(fires, sample, x0, x1, y0, yEnd)
    decreases yEnd - y0
  {
    if y0 < yEnd {
      ScanRowsComplete(fires, sample, x0, x1, y0, yEnd - 1);
      ScanRowComplete(fires, sample, yEnd - 1, x0, x1 + 1);
    }
  }

  /** The scan of the rows is in row-major order. */
  lemma {:induction false} ScanRowsSorted(fires: (int, int) -> bool, sample: (int, int) -> real, x0: int, x1: int, y0: int, yEnd: int)
    ensures RowMajorSorted(ScanRows(fires, sample, x0, x1, y0, yEnd))
    decreases yEnd - y0
  {
    if y0 < yEnd {
      var y := yEnd - 1;
      ScanRowsSorted(fires, sample, x0, x1, y0, y);
      ScanRowsSound(fires, sample, x0, x1, y0, y);
      ScanRowSorted(fires, sample, y, x0, x1 + 1);
      ScanRowSound(fires, sample, y, x0, x1 + 1);
      var prev, row := ScanRows(fires, sample, x0, x1, y0, y), ScanRow(fires, sample, y, x0, x1 + 1);
      EarlierRowsFirst(prev, row, y);
      SortedConcat(prev, row);
    }
  }

  /** In a row-major-sorted sequence no cell appears twice. */
  lemma SortedDistinctCells(s: seq<Detection>)
    requires RowMajorSorted(s)
    ensures forall i, j :: 0 <= i < j < |s| ==> s[i].x != s[j].x || s[i].y != s[j].y
  {
  }
}

/** The CFAR detector: for every interior cell of the matrix, in row-major order, compare the cell's
    sample with the guard-annulus background scaled by the threshold, and report the cells whose
    sample exceeds it. */
module Detector {
  import opened Grid
  import opened CfarParams
  import opened WindowSums
  import opened Scan

  /** Inputs the detector scans: valid parameters and exactly X*Y samples. */
  predicate Scannable(data: seq<real>, p: Params) {
    ValidateParams(p) && |data| == Cells(p.X, p.Y)
  }

  /** The sample at interior cell (x, y). */
  function Sample(data: seq<real>, p: Params, x: int, y: int): real
    requires Scannable(data, p) && Interior(p, x, y)
  {
    WindowsFit(p, x, y);
    data[Idx(x, y, p.X)]
  }

  /** The sample is the one the detector reads at row-major address `y * X + x`. */
  lemma SampleIsRowMajorRead(data: seq<real>, p: Params, x: int, y: int)
    requires Scannable(data, p) && Interior(p, x, y)
    ensures 0 <= y * p.X + x < |data|
    ensures Sample(data, p, x, y) == data[y * p.X + x]
  {
    WindowsFit(p, x, y);
    RadiiOfValid(p);
    IdxIsRowMajor(x, y, p.X);
  }

  /** Big-window sum minus small-window sum around interior cell (x, y). */
  function Background(data: seq<real>, p: Params, x: int, y: int): real
    requires Scannable(data, p) && Interior(p, x, y)
  {
    WindowsFit(p, x, y);
    BoxSum(data, p.X, p.Y, BigWindow(p, x, y)) - BoxSum(data, p.X, p.Y, SmallWindow(p, x, y))
  }

  /** The comparison the detector makes: background `bg` scaled by threshold `th` is below the
      sample `v`. */
  predicate Exceeds(v: real, bg: real, th: real) {
    bg * th < v
  }

  /** The decision rule at interior cell (x, y). */
  predicate Fires(data: seq<real>, p: Params, th: real, x: int, y: int)
    requires Scannable(data, p) && Interior(p, x, y)
  {
    Exceeds(Sample(data, p, x, y), Background(data, p, x, y), th)
  }

  /** The background the rule compares against is the sum over the guard annulus: the cells of the
      big window that are not cells of the small window. */
  lemma BackgroundIsGuardSum(data: seq<real>, p: Params, x: int, y: int)
    requires Scannable(data, p) && Interior(p, x, y)
    ensures Background(data, p, x, y) == AnnulusSum(data, p.X, p.Y, BigWindow(p, x, y), SmallWindow(p, x, y))
  {
    WindowsInMatrix(p, x, y);
    AnnulusIsDifference(data, p.X, p.Y, BigWindow(p, x, y), SmallWindow(p, x, y));
  }

  /** The threshold (1/err)^(1/sq) - 1, with `pow` standing for the power function. */
  function Threshold(p: Params, pow: (real, real) -> real): real
    requires ValidateParams(p)
  {
    pow(1.0 / p.err, 1.0 / GuardCount(p)) - 1.0
  }

  /** The decision rule as the scan consults it: the cell is interior to valid parameters and
      sample count, and the rule fires there. */
  predicate Hit(data: seq<real>, p: Params, th: real, x: int, y: int) {
    Scannable(data, p) && Interior(p, x, y) && Fires(data, p, th, x, y)
  }

  /** The sample the scan reports for a cell (zero where the detector never reads one). */
  function Reading(data: seq<real>, p: Params, x: int, y: int): real {
    if Scannable(data, p) && Interior(p, x, y) then Sample(data, p, x, y) else 0.0
  }

  function Decider(data: seq<real>, p: Params, th: real): (int, int) -> bool {
    (x, y) => Hit(data, p, th, x, y)
  }

  function Reader(data: seq<real>, p: Params): (int, int) -> real {
    (x, y) => Reading(data, p, x, y)
  }

  /** The detector's scan with threshold `th`: the interior rows, top to bottom. */
  function ScanInteriorRows(data: seq<real>, p: Params, th: real, yEnd: int): seq<Detection> {
    ScanRows(Decider(data, p, th), Reader(data, p), X0(p), X1(p), Y0(p), yEnd)
  }

  /** What the detector returns: nothing for invalid parameters or a sample count other than X*Y;
      otherwise the interior cells that pass the decision rule, in row-major order, each with its
      own sample. Membership is exactly the decision rule, in both directions. */
  function Detections(data: seq<real>, p: Params, pow: (real, real) -> real): (r: seq<Detection>)
    ensures !Scannable(data, p) ==> r == []
    ensures RowMajorSorted(r)
    ensures forall i, j :: 0 <= i < j < |r| ==> r[i].x != r[j].x || r[i].y != r[j].y
    ensures forall d :: d in r ==>
      Scannable(data, p) && Interior(p, d.x, d.y)
      && d.v == Sample(data, p, d.x, d.y) && Fires(data, p, Threshold(p, pow), d.x, d.y)
    ensures Scannable(data, p) ==> forall x, y :: Interior(p, x, y) && Fires(data, p, Threshold(p, pow), x, y) ==>
      Detection(x, y, Sample(data, p, x, y)) in r
  {
    if !ValidateParams(p) || |data| != Cells(p.X, p.Y) then []
    else
      var th := Threshold(p, pow);
      var fires, sample := Decider(data, p, th), Reader(data, p);
      ScanRowsSound(fires, sample, X0(p), X1(p), Y0(p), Y1(p) + 1);
      ScanRowsComplete(fires, sample, X0(p), X1(p), Y0(p), Y1(p) + 1);
      ScanRowsSorted(fires, sample, X0(p), X1(p), Y0(p), Y1(p) + 1);
      SortedDistinctCells(ScanInteriorRows(data, p, th, Y1(p) + 1));
      assert forall x, y :: Interior(p, x, y) ==> fires(x, y) == Fires(data, p, th, x, y) && sample(x, y) == Sample(data, p, x, y);
      ScanInteriorRows(data, p, th, Y1(p) + 1)
  }

  /** For inputs the detector scans, its result is the scan of every interior row. */
  lemma DetectionsAreScan(data: seq<real>, p: Params, pow: (real, real) -> real)
    requires Scannable(data, p)
    ensures Detections(data, p, pow) == ScanInteriorRows(data, p, Threshold(p, pow), Y1(p) + 1)
  {
  }

  /** One step of the scan: the two window sums by direct double loops, the cell's sample, and
      the decision rule. */
  method Decide(data: seq<real>, p: Params, th: real, x: int, y: int) returns (hit: bool, v: real)
    requires Scannable(data, p) && Interior(p, x, y)
    ensures v == Sample(data, p, x, y)
    ensures hit <==> Fires(data, p, th, x, y)
  {
    WindowsInMatrix(p, x, y);
    RadiiOfValid(p);
    var sb := SumWindow(data, p.X, p.Y, Window(x, y, p.Xb / 2, p.Yb / 2));
    var ss := SumWindow(data, p.X, p.Y, Window(x, y, p.Xs / 2, p.Ys / 2));
    v := data[Idx(x, y, p.X)];
    var background := sb - ss;
    hit := background * th < v;
    assert hit == Exceeds(v, background, th);
  }

  /** One pass of the column loop: decide cell (x, y) and append its detection if the rule fires. */
  method ScanCell(data: seq<real>, p: Params, th: real, y: int, x: int, row: seq<Detection>) returns (row': seq<Detection>)
    requires Scannable(data, p) && Interior(p, x, y)
    requires row == ScanRow(Decider(data, p, th), Reader(data, p), y, X0(p), x)
    ensures row' == ScanRow(Decider(data, p, th), Reader(data, p), y, X0(p), x + 1)
  {
    var hit, v := Decide(data, p, th, x, y);
    assert hit == Decider(data, p, th)(x, y) && v == Reader(data, p)(x, y);
    row' := row;
    if hit {
      row' := row + [Detection(x, y, v)];
    }
  }

  /** The column loop over one interior row, left to right: the detections the row contributes. */
  method ScanOneRow(data: seq<real>, p: Params, th: real, y: int) returns (row: seq<Detection>)
    requires Scannable(data, p) && Y0(p) <= y <= Y1(p)
    ensures row == ScanRow(Decider(data, p, th), Reader(data, p), y, X0(p), X1(p) + 1)
  {
    row := [];
    InteriorNonEmpty(p);
    var x := X0(p);
    while x <= X1(p)
      invariant X0(p) <= x <= X1(p) + 1
      invariant row == ScanRow(Decider(data, p, th), Reader(data, p), y, X0(p), x)
    {
      row := ScanCell(data, p, th, y, x, row);
      x := x + 1;
    }
  }

  /** The two nested loops over the interior, rows top to bottom: the detections of every row, in
      order. */
  method ScanInterior(data: seq<real>, p: Params, th: real) returns (out: seq<Detection>)
    requires Scannable(data, p)
    ensures out == ScanInteriorRows(data, p, th, Y1(p) + 1)
  {
    out := [];
    InteriorNonEmpty(p);
    var y := Y0(p);
    while y <= Y1(p)
      invariant Y0(p) <= y <= Y1(p) + 1
      invariant out == ScanInteriorRows(data, p, th, y)
    {
      var row := ScanOneRow(data, p, th, y);
      out := out + row;
      y := y + 1;
    }
  }

  /** The threshold as the detector computes it: `sq = Xb*Yb - Xs*Ys` guard cells, then
      `pow(1/err, 1/sq) - 1`. */
  method ComputeThreshold(p: Params, pow: (real, real) -> real) returns (th: real)
    requires ValidateParams(p)
    ensures th == Threshold(p, pow)
  {
    var sq := p.Xb * p.Yb - p.Xs * p.Ys;
    GuardAreaIsProduct(p);
    th := pow(1.0 / p.err, 1.0 / (sq as real)) - 1.0;
  }

  /** The detector's scan: validate, check the sample count, compute the threshold, then visit the
      interior row by row and report each cell the decision rule accepts. */
  method Run(data: seq<real>, p: Params, pow: (real, real) -> real) returns (out: seq<Detection>)
    ensures out == Detections(data, p, pow)
  {
    out := [];
    if !ValidateParams(p) {
      return;
    }
    CellsIsProduct(p.X, p.Y);
    if |data| != p.X * p.Y {
      return;
    }
    var th := ComputeThreshold(p, pow);
    out := ScanInterior(data, p, th);
    DetectionsAreScan(data, p, pow);
  }
}

/** What the detector reports on particular kinds of input: cells near the matrix border, an
    all-zero or uniform matrix, and a uniform matrix with one peak. */
module DetectorProperties {
  import opened Grid
  import opened CfarParams
  import opened WindowSums
  import opened Scan
  import opened Detector

  /** A cell closer to the border than the big window's radius is never reported, whatever the
      samples and the threshold. */
  lemma NearEdgeNeverReported(data: seq<real>, p: Params, pow: (real, real) -> real, x: int, y: int)
    requires x < p.Xb / 2 || x > p.X - p.Xb / 2 - 1 || y < p.Yb / 2 || y > p.Y - p.Yb / 2 - 1
    ensures forall d :: d in Detections(data, p, pow) ==> d.x != x || d.y != y
  {
    if ValidateParams(p) {
      RadiiOfValid(p);
    }
  }

  /** Valid parameters give the big window a radius of at least one, so the matrix corners (0, 0)
      and (X-1, Y-1) are never reported; neither is (3, 3) once the big window is at least 9 cells
      wide. */
  lemma CornersNeverReported(data: seq<real>, p: Params, pow: (real, real) -> real)
    ensures forall d :: d in Detections(data, p, pow) ==> (d.x, d.y) != (0, 0) && (d.x, d.y) != (p.X - 1, p.Y - 1)
    ensures p.Xb >= 9 ==> forall d :: d in Detections(data, p, pow) ==> (d.x, d.y) != (3, 3)
  {
    if ValidateParams(p) {
      assert p.Xb >= 3;
      NearEdgeNeverReported(data, p, pow, 0, 0);
      NearEdgeNeverReported(data, p, pow, p.X - 1, p.Y - 1);
      if p.Xb >= 9 {
        NearEdgeNeverReported(data, p, pow, 3, 3);
      }
    }
  }

  // ---------------------------------------------------------------------------------------------
  // A uniform matrix
  // ---------------------------------------------------------------------------------------------

  /** Every sample of the matrix equals `c`. */
  ghost predicate Uniform(data: seq<real>, c: real) {
    forall i :: 0 <= i < |data| ==> data[i] == c
  }

  /** Over a uniform matrix of value `c`, the background at any interior cell is `c` once per guard
      cell, and the cell's sample is `c`. */
  lemma UniformBackground(data: seq<real>, p: Params, c: real, x: int, y: int)
    requires Scannable(data, p) && Interior(p, x, y) && Uniform(data, c)
    ensures Background(data, p, x, y) == c * GuardCount(p)
    ensures Sample(data, p, x, y) == c
  {
    RadiiOfValid(p);
    assert UniformWithPeak(data, p.X, c, 0.0, x, y);
    PeakBackground(data, p, c, 0.0, x, y, x, y);
  }

  /** The factor the rule applies to a uniform background value: the guard count times the
      threshold, `sq * Th`. */
  function Gain(p: Params, th: real): real {
    GuardCount(p) * th
  }

  /** The rule `c * k < c` on a uniform value `c`: it holds for positive `c` exactly when `k < 1`,
      for negative `c` exactly when `k > 1`, and never for zero. */
  predicate UniformRuleFires(c: real, k: real) {
    (c > 0.0 && k < 1.0) || (c < 0.0 && k > 1.0)
  }

  /** The arithmetic of the rule over a uniform matrix: a background of `c` per cell of a `g`-cell
      annulus, scaled by the threshold, is below the sample `c` exactly when the sign rule holds
      for `k`, the annulus size times the threshold. */
  lemma UniformArith(bg: real, v: real, c: real, g: real, th: real, k: real)
    requires v == c && bg == c * g && k == g * th
    ensures Exceeds(v, bg, th) <==> UniformRuleFires(c, k)
  {
    assert bg * th == c * k by {
      assert bg * th == (c * g) * th == c * (g * th);
    }
    var d := k - 1.0;
    assert c * k - c == c * d;
    if c > 0.0 {
      assert c * d < 0.0 <==> d < 0.0;
    } else if c < 0.0 {
      assert c * d < 0.0 <==> d > 0.0;
    }
  }

  /** The same for the detector's guard annulus: the sign rule holds for the gain. */
  lemma UniformRule(bg: real, v: real, c: real, p: Params, th: real)
    requires v == c && bg == c * GuardCount(p)
    ensures Exceeds(v, bg, th) <==> UniformRuleFires(c, Gain(p, th))
  {
    var g, k := GuardCount(p), Gain(p, th);
    assert bg == c * g;
    UniformArith(bg, v, c, g, th, k);
  }

  /** The rule at a cell whose background is `c` per guard cell and whose sample is `c`. */
  lemma RuleOnUniformCell(data: seq<real>, p: Params, th: real, c: real, x: int, y: int)
    requires Scannable(data, p) && Interior(p, x, y)
    requires Background(data, p, x, y) == c * GuardCount(p) && Sample(data, p, x, y) == c
    ensures Fires(data, p, th, x, y) <==> UniformRuleFires(c, Gain(p, th))
  {
    UniformRule(Background(data, p, x, y), Sample(data, p, x, y), c, p, th);
  }

  /** Hence the rule gives one answer at every interior cell of a uniform matrix: for a positive
      value it fires everywhere when `sq * Th < 1` and nowhere otherwise. */
  lemma UniformCellDecision(data: seq<real>, p: Params, th: real, c: real, x: int, y: int)
    requires Scannable(data, p) && Interior(p, x, y) && Uniform(data, c)
    ensures Fires(data, p, th, x, y) <==> UniformRuleFires(c, Gain(p, th))
  {
    UniformBackground(data, p, c, x, y);
    RuleOnUniformCell(data, p, th, c, x, y);
  }

  /** When the rule holds for a uniform matrix, every interior cell is reported with the value `c`. */
  lemma UniformCellReported(data: seq<real>, p: Params, pow: (real, real) -> real, c: real, x: int, y: int)
    requires Scannable(data, p) && Interior(p, x, y) && Uniform(data, c)
    requires UniformRuleFires(c, Gain(p, Threshold(p, pow)))
    ensures Detection(x, y, c) in Detections(data, p, pow)
  {
    UniformBackground(data, p, c, x, y);
    UniformCellDecision(data, p, Threshold(p, pow), c, x, y);
  }

  /** When the rule fails for a uniform matrix, nothing is reported. */
  lemma UniformNothingReported(data: seq<real>, p: Params, pow: (real, real) -> real, c: real)
    requires Scannable(data, p) && Uniform(data, c)
    requires !UniformRuleFires(c, Gain(p, Threshold(p, pow)))
    ensures Detections(data, p, pow) == []
  {
    var r := Detections(data, p, pow);
    if r != [] {
      var d := r[0];
      assert d in r;
      UniformCellDecision(data, p, Threshold(p, pow), c, d.x, d.y);
      assert false;
    }
  }

  /** A uniform matrix yields either no detection at all or every interior cell, according to
      whether `c * sq * Th < c`. */
  lemma UniformMatrixAllOrNothing(data: seq<real>, p: Params, pow: (real, real) -> real, c: real)
    requires Scannable(data, p) && Uniform(data, c)
    ensures Detections(data, p, pow) == [] <==> !UniformRuleFires(c, Gain(p, Threshold(p, pow)))
    ensures UniformRuleFires(c, Gain(p, Threshold(p, pow))) ==>
      forall x, y :: Interior(p, x, y) ==> Detection(x, y, c) in Detections(data, p, pow)
  {
    if UniformRuleFires(c, Gain(p, Threshold(p, pow))) {
      forall x, y | Interior(p, x, y)
        ensures Detection(x, y, c) in Detections(data, p, pow)
      {
        UniformCellReported(data, p, pow, c, x, y);
      }
      InteriorNonEmpty(p);
      UniformCellReported(data, p, pow, c, X0(p), Y0(p));
    } else {
      UniformNothingReported(data, p, pow, c);
    }
  }

  /** An all-zero matrix yields no detection, for every parameter record and every threshold. */
  lemma AllZeroNoDetections(data: seq<real>, p: Params, pow: (real, real) -> real)
    requires Uniform(data, 0.0)
    ensures Detections(data, p, pow) == []
  {
    if Scannable(data, p) {
      UniformNothingReported(data, p, pow, 0.0);
    }
  }

  // ---------------------------------------------------------------------------------------------
  // A uniform matrix with one peak
  // ---------------------------------------------------------------------------------------------

  /** `c` added up once per guard cell is `c` times the guard count. */
  lemma RepeatGuard(c: real, p: Params)
    requires GuardArea(p) >= 0
    ensures Repeat(c, GuardArea(p)) == c * GuardCount(p)
  {
    RepeatIsProduct(c, GuardArea(p));
    var g := GuardCount(p);
    assert g == GuardArea(p) as real;
  }

  /** Over a uniform matrix with one peak, the background at an interior cell is `c` per guard cell,
      plus the peak's excess when the peak lies in the guard annulus. */
  lemma PeakBackground(data: seq<real>, p: Params, c: real, a: real, px: int, py: int, x: int, y: int)
    requires Scannable(data, p) && Interior(p, x, y) && 0 <= px < p.X && 0 <= py < p.Y
    requires UniformWithPeak(data, p.X, c, a, px, py)
    ensures Background(data, p, x, y)
         == c * GuardCount(p)
            + (if InBox(BigWindow(p, x, y), px, py) && !InBox(SmallWindow(p, x, y), px, py) then a else 0.0)
    ensures Sample(data, p, x, y) == if x == px && y == py then c + a else c
  {
    WindowsInMatrix(p, x, y);
    var big, small := BigWindow(p, x, y), SmallWindow(p, x, y);
    BoxSumUniformWithPeak(data, p.X, p.Y, c, a, px, py, big);
    BoxSumUniformWithPeak(data, p.X, p.Y, c, a, px, py, small);
    RepeatSum(c, GuardArea(p), Area(small), Area(big));
    RepeatGuard(c, p);
    SampleUniformWithPeak(data, p.X, p.Y, c, a, px, py, x, y);
  }

  /** The threshold separates a peak of excess `a` from a background `c`: with `k` the guard count
      times the threshold, the background alone does not fire (`c * k >= c`) but the peak does
      (`c * k < c + a`); the excess and the threshold are not negative. */
  predicate PeakStandsOut(c: real, a: real, k: real, th: real) {
    a >= 0.0 && th >= 0.0 && c * k >= c && c * k < c + a
  }

  /** The arithmetic of the rule over a uniform matrix with one peak, for a `g`-cell annulus and
      `k` the annulus size times the threshold: only the peak cell's sample exceeds its scaled
      background, whether or not the peak lies in that cell's annulus. */
  lemma PeakArith(bg: real, v: real, c: real, g: real, th: real, k: real, a: real, extra: real, isPeak: bool)
    requires bg == c * g + extra && k == g * th
    requires v == if isPeak then c + a else c
    requires extra == 0.0 || (extra == a && !isPeak)
    requires PeakStandsOut(c, a, k, th)
    ensures Exceeds(v, bg, th) <==> isPeak
  {
    assert bg * th == c * k + extra * th by {
      assert bg * th == (c * g) * th + extra * th;
      assert (c * g) * th == c * (g * th);
    }
    if extra != 0.0 {
      assert extra * th >= 0.0;
    }
  }

  /** The same for the detector's guard annulus. */
  lemma PeakRule(bg: real, v: real, c: real, p: Params, th: real, a: real, extra: real, isPeak: bool)
    requires bg == c * GuardCount(p) + extra
    requires v == if isPeak then c + a else c
    requires extra == 0.0 || (extra == a && !isPeak)
    requires PeakStandsOut(c, a, Gain(p, th), th)
    ensures Exceeds(v, bg, th) <==> isPeak
  {
    var g, k := GuardCount(p), Gain(p, th);
    assert bg == c * g + extra;
    PeakArith(bg, v, c, g, th, k, a, extra, isPeak);
  }

  /** The rule at a cell whose background is `c` per guard cell plus `extra`, and whose sample is
      `c`, or `c + a` at the peak. */
  lemma RuleOnPeakCell(data: seq<real>, p: Params, th: real, c: real, a: real, extra: real, isPeak: bool, x: int, y: int)
    requires Scannable(data, p) && Interior(p, x, y)
    requires Background(data, p, x, y) == c * GuardCount(p) + extra
    requires Sample(data, p, x, y) == if isPeak then c + a else c
    requires extra == 0.0 || (extra == a && !isPeak)
    requires PeakStandsOut(c, a, Gain(p, th), th)
    ensures Fires(data, p, th, x, y) <==> isPeak
  {
    PeakRule(Background(data, p, x, y), Sample(data, p, x, y), c, p, th, a, extra, isPeak);
  }

  /** The rule at one interior cell of a uniform matrix with one peak: only the peak fires. */
  lemma PeakCellDecision(data: seq<real>, p: Params, th: real, c: real, a: real, px: int, py: int, x: int, y: int)
    requires Scannable(data, p) && Interior(p, x, y) && 0 <= px < p.X && 0 <= py < p.Y
    requires UniformWithPeak(data, p.X, c, a, px, py)
    requires PeakStandsOut(c, a, Gain(p, th), th)
    ensures Fires(data, p, th, x, y) <==> x == px && y == py
    ensures x == px && y == py ==> Sample(data, p, x, y) == c + a
  {
    RadiiOfValid(p);
    PeakBackground(data, p, c, a, px, py, x, y);
    var extra := if InBox(BigWindow(p, x, y), px, py) && !InBox(SmallWindow(p, x, y), px, py) then a else 0.0;
    RuleOnPeakCell(data, p, th, c, a, extra, x == px && y == py, x, y);
  }

  /** The peak is reported, with its own sample. */
  lemma PeakReported(data: seq<real>, p: Params, pow: (real, real) -> real, c: real, a: real, px: int, py: int)
    requires Scannable(data, p) && Interior(p, px, py)
    requires UniformWithPeak(data, p.X, c, a, px, py)
    requires PeakStandsOut(c, a, Gain(p, Threshold(p, pow)), Threshold(p, pow))
    ensures Detection(px, py, c + a) in Detections(data, p, pow)
  {
    RadiiOfValid(p);
    PeakCellDecision(data, p, Threshold(p, pow), c, a, px, py, px, py);
  }

  /** Every reported cell is the peak. */
  lemma OnlyPeakReported(data: seq<real>, p: Params, pow: (real, real) -> real, c: real, a: real, px: int, py: int)
    requires Scannable(data, p) && Interior(p, px, py)
    requires UniformWithPeak(data, p.X, c, a, px, py)
    requires PeakStandsOut(c, a, Gain(p, Threshold(p, pow)), Threshold(p, pow))
    ensures forall d :: d in Detections(data, p, pow) ==> d == Detection(px, py, c + a)
  {
    RadiiOfValid(p);
    forall d | d in Detections(data, p, pow)
      ensures d == Detection(px, py, c + a)
    {
      PeakCellDecision(data, p, Threshold(p, pow), c, a, px, py, d.x, d.y);
    }
  }

  /** The first two elements of a sequence of two or more, and their order when it is sorted. */
  lemma FirstTwo(s: seq<Detection>)
    ensures |s| >= 2 ==> s[0] in s && s[1] in s && (RowMajorSorted(s) ==> Before(s[0], s[1]))
  {
  }

  /** A strictly ordered sequence all of whose elements are `e`, and which holds `e`, is `[e]`. */
  lemma OnlyElement(s: seq<Detection>, e: Detection)
    requires RowMajorSorted(s) && e in s
    requires forall d :: d in s ==> d == e
    ensures s == [e]
  {
    if |s| >= 2 {
      FirstTwo(s);
      assert false;
    }
  }

  /** A uniform background `c` with one peak of excess `a` at an interior cell, under a threshold
      that separates the two: the peak is reported exactly once, with its own coordinates and
      sample, and nothing else is reported. */
  lemma SinglePeakReportedAlone(data: seq<real>, p: Params, pow: (real, real) -> real, c: real, a: real, px: int, py: int)
    requires Scannable(data, p) && Interior(p, px, py)
    requires UniformWithPeak(data, p.X, c, a, px, py)
    requires PeakStandsOut(c, a, Gain(p, Threshold(p, pow)), Threshold(p, pow))
    ensures Detections(data, p, pow) == [Detection(px, py, c + a)]
  {
    PeakReported(data, p, pow, c, a, px, py);
    OnlyPeakReported(data, p, pow, c, a, px, py);
    OnlyElement(Detections(data, p, pow), Detection(px, py, c + a));
  }
}

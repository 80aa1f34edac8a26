/** Sums of matrix samples over rectangular windows, as the detector's direct double loops
    compute them (row by row from the top, left to right within a row), and the guard-annulus
    sum they are combined into. Samples and sums are exact reals. */
module WindowSums {
  import opened Grid

  /** Sum of row `y` over columns [xlo, xhi], accumulated left to right. */
  function RowSum(data: seq<real>, w: int, h: int, y: int, xlo: int, xhi: int): real
    requires |data| == Cells(w, h)
    requires 0 <= y < h && 0 <= xlo && xhi < w
    decreases xhi - xlo
  {
    if xhi < xlo then 0.0
    else
      CellIndexInBounds(w, h, xhi, y);
      RowSum(data, w, h, y, xlo, xhi - 1) + data[Idx(xhi, y, w)]
  }

  /** Sum over the box `b`, accumulated row by row from the top. */
  function BoxSum(data: seq<real>, w: int, h: int, b: Box): real
    requires |data| == Cells(w, h) && Fits(b, w, h)
    decreases b.yhi - b.ylo
  {
    if b.yhi < b.ylo then 0.0
    else BoxSum(data, w, h, b.(yhi := b.yhi - 1)) + RowSum(data, w, h, b.yhi, b.xlo, b.xhi)
  }

  /** Sum of row `y` over columns [xlo, xhi], skipping the cells of `hole`. */
  function AnnulusRowSum(data: seq<real>, w: int, h: int, y: int, xlo: int, xhi: int, hole: Box): real
    requires |data| == Cells(w, h)
    requires 0 <= y < h && 0 <= xlo && xhi < w
    decreases xhi - xlo
  {
    if xhi < xlo then 0.0
    else
      CellIndexInBounds(w, h, xhi, y);
      AnnulusRowSum(data, w, h, y, xlo, xhi - 1, hole)
        + (if InBox(hole, xhi, y) then 0.0 else data[Idx(xhi, y, w)])
  }

  /** Sum over the cells of `outer` that are not cells of `hole`: with the small window as the
      hole, the sum over the guard annulus. */
  function AnnulusSum(data: seq<real>, w: int, h: int, outer: Box, hole: Box): real
    requires |data| == Cells(w, h) && Fits(outer, w, h)
    decreases outer.yhi - outer.ylo
  {
    if outer.yhi < outer.ylo then 0.0
    else
      AnnulusSum(data, w, h, outer.(yhi := outer.yhi - 1), hole)
        + AnnulusRowSum(data, w, h, outer.yhi, outer.xlo, outer.xhi, hole)
  }

  /** A row prefix ending at column `t` skips exactly the part of the hole's row that it covers. */
  lemma {:induction false} AnnulusRowPrefix(data: seq<real>, w: int, h: int, y: int, xlo: int, t: int, hole: Box)
    requires |data| == Cells(w, h) && 0 <= y < h && 0 <= xlo && t < w
    requires 0 <= hole.xlo && xlo <= hole.xlo && hole.xlo <= hole.xhi + 1 && hole.xhi < w
    requires xlo - 1 <= t
    ensures AnnulusRowSum(data, w, h, y, xlo, t, hole)
         == RowSum(data, w, h, y, xlo, t)
            - (if hole.ylo <= y <= hole.yhi then RowSum(data, w, h, y, hole.xlo, if hole.xhi < t then hole.xhi else t) else 0.0)
    decreases t - xlo
  {
    if t >= xlo {
      AnnulusRowPrefix(data, w, h, y, xlo, t - 1, hole);
    }
  }

  /** A box prefix ending at row `t` skips exactly the part of the hole that it covers. */
  lemma {:induction false} AnnulusPrefix(data: seq<real>, w: int, h: int, outer: Box, hole: Box, t: int)
    requires |data| == Cells(w, h) && Fits(outer, w, h) && Contains(outer, hole)
    requires outer.ylo - 1 <= t <= outer.yhi
    ensures AnnulusSum(data, w, h, outer.(yhi := t), hole)
         == BoxSum(data, w, h, outer.(yhi := t))
            - BoxSum(data, w, h, hole.(yhi := if hole.yhi < t then hole.yhi else t))
    decreases t - outer.ylo
  {
    var o := outer.(yhi := t);
    if t >= outer.ylo {
      AnnulusPrefix(data, w, h, outer, hole, t - 1);
      assert o.(yhi := t - 1) == outer.(yhi := t - 1);
      AnnulusRowPrefix(data, w, h, t, outer.xlo, outer.xhi, hole);
      if hole.ylo <= t <= hole.yhi {
        assert hole.(yhi := t).(yhi := t - 1) == hole.(yhi := t - 1);
      }
    }
  }

  /** The small window's sum subtracted from the big window's is the sum over the cells of the big
      window outside the small one. */
  lemma AnnulusIsDifference(data: seq<real>, w: int, h: int, outer: Box, hole: Box)
    requires |data| == Cells(w, h) && Fits(outer, w, h) && Contains(outer, hole)
    ensures BoxSum(data, w, h, outer) - BoxSum(data, w, h, hole) == AnnulusSum(data, w, h, outer, hole)
  {
    AnnulusPrefix(data, w, h, outer, hole, outer.yhi);
    assert outer.(yhi := outer.yhi) == outer;
    assert hole.(yhi := hole.yhi) == hole;
  }

  /** Every sample equals `c`, except the one at cell (px, py), which is `c + a`. */
  ghost predicate UniformWithPeak(data: seq<real>, w: int, c: real, a: real, px: int, py: int) {
    forall i :: 0 <= i < |data| ==> data[i] == if i == Idx(px, py, w) then c + a else c
  }

  /** The sample at cell (x, y) of a matrix that is uniform but for one peak. */
  lemma SampleUniformWithPeak(data: seq<real>, w: int, h: int, c: real, a: real, px: int, py: int, x: int, y: int)
    requires |data| == Cells(w, h) && 0 <= px < w && 0 <= py < h && UniformWithPeak(data, w, c, a, px, py)
    requires 0 <= x < w && 0 <= y < h
    ensures 0 <= Idx(x, y, w) < |data|
    ensures data[Idx(x, y, w)] == if x == px && y == py then c + a else c
  {
    CellIndexInBounds(w, h, x, y);
    if Idx(x, y, w) == Idx(px, py, w) {
      IdxInjective(w, x, y, px, py);
    }
  }

  /** `n` copies of `c` added up. */
  function Repeat(c: real, n: nat): real {
    if n == 0 then 0.0 else Repeat(c, n - 1) + c
  }

  lemma {:induction false} RepeatSum(c: real, m: nat, n: nat, t: nat)
    requires t == m + n
    ensures Repeat(c, t) == Repeat(c, m) + Repeat(c, n)
    decreases n
  {
    if n > 0 {
      RepeatSum(c, m, n - 1, t - 1);
    }
  }

  /** Adding up `n` copies of `c` is multiplying `c` by `n`. */
  lemma {:induction false} RepeatIsProduct(c: real, n: nat)
    ensures Repeat(c, n) == c * (n as real)
  {
    if n > 0 {
      RepeatIsProduct(c, n - 1);
      assert c * (n as real) == c * ((n - 1) as real) + c;
    }
  }

  lemma {:induction false} RowSumUniformWithPeak(data: seq<real>, w: int, h: int, c: real, a: real, px: int, py: int,
                                                 y: int, xlo: int, xhi: int)
    requires |data| == Cells(w, h) && 0 <= px < w && 0 <= py < h && UniformWithPeak(data, w, c, a, px, py)
    requires 0 <= y < h && 0 <= xlo && xhi < w && xlo <= xhi + 1
    ensures RowSum(data, w, h, y, xlo, xhi)
         == Repeat(c, xhi - xlo + 1) + (if y == py && xlo <= px <= xhi then a else 0.0)
    decreases xhi - xlo
  {
    if xlo <= xhi {
      RowSumUniformWithPeak(data, w, h, c, a, px, py, y, xlo, xhi - 1);
      SampleUniformWithPeak(data, w, h, c, a, px, py, xhi, y);
    }
  }

  /** Dropping the bottom row of a non-empty proper box removes one row's worth of cells. */
  lemma AreaStep(b: Box)
    requires Proper(b) && b.ylo <= b.yhi
    ensures Proper(b.(yhi := b.yhi - 1))
    ensures Area(b) == Area(b.(yhi := b.yhi - 1)) + (b.xhi - b.xlo + 1)
  {
  }

  /** Over a matrix that is uniform but for one peak, a window sums to `c` per cell plus the peak's
      excess when the window covers the peak. */
  lemma {:induction false} BoxSumUniformWithPeak(data: seq<real>, w: int, h: int, c: real, a: real, px: int, py: int, b: Box)
    requires |data| == Cells(w, h) && 0 <= px < w && 0 <= py < h && UniformWithPeak(data, w, c, a, px, py)
    requires Fits(b, w, h) && Proper(b)
    ensures BoxSum(data, w, h, b) == Repeat(c, Area(b)) + (if InBox(b, px, py) then a else 0.0)
    decreases b.yhi - b.ylo
  {
    if b.ylo <= b.yhi {
      var b' := b.(yhi := b.yhi - 1);
      AreaStep(b);
      BoxSumUniformWithPeak(data, w, h, c, a, px, py, b');
      RowSumUniformWithPeak(data, w, h, c, a, px, py, b.yhi, b.xlo, b.xhi);
      RepeatSum(c, Area(b'), b.xhi - b.xlo + 1, Area(b));
      assert InBox(b, px, py) <==> InBox(b', px, py) || (py == b.yhi && b.xlo <= px <= b.xhi);
    }
  }

  /** The detector's direct double loop over a window: rows top to bottom, each row left to right,
      reading sample `yy * w + xx`. */
  method SumWindow(data: seq<real>, w: int, h: int, b: Box) returns (s: real)
    requires |data| == Cells(w, h) && Fits(b, w, h) && Proper(b)
    ensures s == BoxSum(data, w, h, b)
  {
    s := 0.0;
    var yy := b.ylo;
    while yy <= b.yhi
      invariant b.ylo <= yy <= b.yhi + 1
      invariant s == BoxSum(data, w, h, b.(yhi := yy - 1))
      decreases b.yhi - yy
    {
      var base := yy * w;
      IdxIsRowMajor(0, yy, w);
      var xx := b.xlo;
      while xx <= b.xhi
        invariant b.xlo <= xx <= b.xhi + 1
        invariant s == BoxSum(data, w, h, b.(yhi := yy - 1)) + RowSum(data, w, h, yy, b.xlo, xx - 1)
        decreases b.xhi - xx
      {
        CellIndexInBounds(w, h, xx, yy);
        s := s + data[base + xx];
        xx := xx + 1;
      }
      assert b.(yhi := yy).(yhi := yy - 1) == b.(yhi := yy - 1);
      yy := yy + 1;
    }
    assert b.(yhi := yy - 1) == b;
  }
}

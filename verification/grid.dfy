/** Geometry of a matrix `w` cells wide and `h` cells high stored row-major in a flat sequence,
    and of the rectangular windows the detector sums over. */
module Grid {

  /** Number of cells in `h` rows of `w` cells each, added one row at a time; it is also the flat
      offset at which row `h` starts. */
  function Cells(w: int, h: int): int
    decreases h
  {
    if h <= 0 then 0 else Cells(w, h - 1) + w
  }

  /** Flat index of cell (x, y): row `y` starts after `y` full rows. */
  function Idx(x: int, y: int, w: int): int {
    Cells(w, y) + x
  }

  /** The row-by-row count is the product `w * h`: the matrix holds `w * h` cells. */
  lemma {:induction false} CellsIsProduct(w: int, h: int)
    requires 0 <= h
    ensures Cells(w, h) == w * h
  {
    if h > 0 {
      CellsIsProduct(w, h - 1);
      assert w * h == w * (h - 1) + w;
    }
  }

  /** `Idx` is the usual row-major index `y * w + x`. */
  lemma IdxIsRowMajor(x: int, y: int, w: int)
    requires 0 <= y
    ensures Idx(x, y, w) == y * w + x
  {
    CellsIsProduct(w, y);
  }

  /** A count of rows of natural width is natural. */
  lemma {:induction false} CellsNonNegative(w: int, h: int)
    requires 0 <= w
    ensures 0 <= Cells(w, h)
    decreases h
  {
    if h > 0 {
      CellsNonNegative(w, h - 1);
    }
  }

  /** Rows never start earlier further down, and a later row starts at least one full row width
      further on. */
  lemma {:induction false} RowStartsApart(w: int, lo: int, hi: int)
    requires 0 <= w && 0 <= lo <= hi
    ensures Cells(w, lo) <= Cells(w, hi)
    ensures lo < hi ==> Cells(w, lo) + w <= Cells(w, hi)
    decreases hi - lo
  {
    if lo < hi {
      RowStartsApart(w, lo, hi - 1);
    }
  }

  /** Every cell of the matrix has its flat index inside the sequence. */
  lemma CellIndexInBounds(w: int, h: int, x: int, y: int)
    requires 0 <= x < w && 0 <= y < h
    ensures 0 <= Idx(x, y, w) < Cells(w, h)
  {
    RowStartsApart(w, 0, y);
    RowStartsApart(w, y, h);
  }

  /** Two cells of the matrix with the same flat index are the same cell. */
  lemma IdxInjective(w: int, x1: int, y1: int, x2: int, y2: int)
    requires 0 <= x1 < w && 0 <= x2 < w && 0 <= y1 && 0 <= y2
    requires Idx(x1, y1, w) == Idx(x2, y2, w)
    ensures x1 == x2 && y1 == y2
  {
    if y1 < y2 {
      RowStartsApart(w, y1, y2);
    } else if y2 < y1 {
      RowStartsApart(w, y2, y1);
    }
  }

  /** The closed rectangle [xlo, xhi] x [ylo, yhi]; it is empty when a bound pair is inverted. */
  datatype Box = Box(xlo: int, xhi: int, ylo: int, yhi: int)

  /** The window of half-widths `rx`, `ry` centred on (cx, cy). */
  function Window(cx: int, cy: int, rx: int, ry: int): Box {
    Box(cx - rx, cx + rx, cy - ry, cy + ry)
  }

  predicate InBox(b: Box, x: int, y: int) {
    b.xlo <= x <= b.xhi && b.ylo <= y <= b.yhi
  }

  /** Every cell of `b` lies inside the w-by-h matrix. */
  predicate Fits(b: Box, w: int, h: int) {
    0 <= b.xlo && b.xhi < w && 0 <= b.ylo && b.yhi < h
  }

  /** Neither bound pair of `b` is inverted by more than one (so its width and height are natural). */
  predicate Proper(b: Box) {
    b.xlo <= b.xhi + 1 && b.ylo <= b.yhi + 1
  }

  /** `inner` is a proper box lying inside `outer`. */
  predicate Contains(outer: Box, inner: Box) {
    Proper(inner)
    && outer.xlo <= inner.xlo && inner.xhi <= outer.xhi
    && outer.ylo <= inner.ylo && inner.yhi <= outer.yhi
  }

  /** Number of cells of a proper box. */
  function Area(b: Box): nat
    requires Proper(b)
  {
    CellsNonNegative(b.xhi - b.xlo + 1, b.yhi - b.ylo + 1);
    Cells(b.xhi - b.xlo + 1, b.yhi - b.ylo + 1)
  }
}

/** The detector's parameter record, its validator, and the geometry derived from valid parameters:
    the interior range of window centres and the big and small windows around each centre. */
module CfarParams {
  import opened Grid

  /** Matrix width X and height Y, big window Xb-by-Yb, small window Xs-by-Ys,
      and the target false-alarm probability. The integers are unbounded here; `err` is a real. */
  datatype Params = Params(X: int, Y: int, Xb: int, Yb: int, Xs: int, Ys: int, err: real)

  /** A default-constructed record: every size zero, `err` 0.01. */
  function DefaultParams(): (p: Params)
    ensures p.X <= 40 && !ValidateParams(p)
    ensures p.err > 0.0
  {
    Params(0, 0, 0, 0, 0, 0, 0.01)
  }

  /** The validator's oddness test `value % 2 != 0`. A remainder is nonzero under truncating and
      under Euclidean division alike, so the test reads the same here. */
  predicate Odd(n: int) {
    n % 2 != 0
  }

  predicate PositiveOdd(n: int) {
    n > 0 && n % 2 == 1
  }

  /** C++'s `%`: the remainder of division truncated toward zero, which takes the sign of `a`. */
  function TruncatingRemainder(a: int, b: int): int
    requires b > 0
  {
    if a >= 0 then a % b else -((-a) % b)
  }

  /** The oddness test reads the same under C++'s truncating `%`, and on the positive sizes the
      validator has already admitted it is oddness with remainder one. */
  lemma OddAsInCpp(n: int)
    ensures Odd(n) <==> TruncatingRemainder(n, 2) != 0
    ensures n > 0 ==> (Odd(n) <==> PositiveOdd(n))
  {
  }

  /** Number of guard cells: inside the big window, outside the small one. */
  function GuardArea(p: Params): int {
    Cells(p.Xb, p.Yb) - Cells(p.Xs, p.Ys)
  }

  /** The guard area is the detector's `sq`, `Xb * Yb - Xs * Ys`. */
  lemma GuardAreaIsProduct(p: Params)
    requires 0 <= p.Yb && 0 <= p.Ys
    ensures GuardArea(p) == p.Xb * p.Yb - p.Xs * p.Ys
  {
    CellsIsProduct(p.Xb, p.Yb);
    CellsIsProduct(p.Xs, p.Ys);
  }

  /** The guard area as a real: the count the threshold's exponent divides by and the number of
      samples the background adds up. */
  function GuardCount(p: Params): real {
    GuardArea(p) as real
  }

  /** Positive window sizes with the small window strictly inside the big one always leave a
      positive guard area, so the validator's guard-area test rejects nothing the earlier tests let through. */
  lemma GuardAreaCheckRedundant(p: Params)
    requires p.Xb > 0 && p.Yb > 0 && p.Xs > 0 && p.Ys > 0
    requires p.Xb > p.Xs && p.Yb > p.Ys
    ensures GuardArea(p) > 0
  {
    GuardAreaIsProduct(p);
    assert p.Xs * p.Ys < p.Xb * p.Ys;
    assert p.Xb * p.Ys < p.Xb * p.Yb;
  }

  /** The validator, test by test in the order the detector applies them. */
  function ValidateParams(p: Params): (ok: bool)
    ensures ok <==>
      p.X > 40 && p.Y > 40
      && PositiveOdd(p.Xb) && PositiveOdd(p.Yb) && PositiveOdd(p.Xs) && PositiveOdd(p.Ys)
      && p.Xs < p.Xb && p.Ys < p.Yb
      && p.Xb < p.X && p.Yb < p.Y
      && GuardArea(p) > 0
      && p.err > 0.0
  {
    if p.X <= 40 || p.Y <= 40 then false
    else if p.Xb <= 0 || p.Yb <= 0 || p.Xs <= 0 || p.Ys <= 0 then false
    else if !Odd(p.Xb) || !Odd(p.Yb) || !Odd(p.Xs) || !Odd(p.Ys) then false
    else if !(p.Xb > p.Xs && p.Yb > p.Ys) then false
    else if !(p.Xb < p.X && p.Yb < p.Y) then false
    else
      GuardAreaCheckRedundant(p);
      if GuardArea(p) <= 0 then false
      else if p.err <= 0.0 then false
      else true
  }

  /** Radius of a window `n` cells wide: the detector's `n / 2`, counted down two cells at a time.
      Validated sizes are positive, where truncating and Euclidean division agree. */
  function Radius(n: int): int
    decreases n
  {
    if n < 2 then 0 else Radius(n - 2) + 1
  }

  /** The counted radius is the halved size, and an odd size is the radius on either side of the
      centre plus the centre itself. */
  lemma {:induction false} RadiusIsHalf(n: int)
    requires 0 <= n
    ensures Radius(n) == n / 2
    ensures 0 <= Radius(n) && (Odd(n) ==> 2 * Radius(n) + 1 == n)
    decreases n
  {
    if n >= 2 {
      RadiusIsHalf(n - 2);
    }
  }

  /** The four radii of valid parameters. */
  lemma RadiiOfValid(p: Params)
    requires ValidateParams(p)
    ensures 0 <= Radius(p.Xb) == p.Xb / 2 && 2 * Radius(p.Xb) + 1 == p.Xb
    ensures 0 <= Radius(p.Yb) == p.Yb / 2 && 2 * Radius(p.Yb) + 1 == p.Yb
    ensures 0 <= Radius(p.Xs) == p.Xs / 2 && 2 * Radius(p.Xs) + 1 == p.Xs
    ensures 0 <= Radius(p.Ys) == p.Ys / 2 && 2 * Radius(p.Ys) + 1 == p.Ys
  {
    RadiusIsHalf(p.Xb);
    RadiusIsHalf(p.Yb);
    RadiusIsHalf(p.Xs);
    RadiusIsHalf(p.Ys);
  }

  /** Range of window centres [X0, X1] x [Y0, Y1] at which the big window lies inside the matrix. */
  function X0(p: Params): int { Radius(p.Xb) }
  function X1(p: Params): int { p.X - Radius(p.Xb) - 1 }
  function Y0(p: Params): int { Radius(p.Yb) }
  function Y1(p: Params): int { p.Y - Radius(p.Yb) - 1 }

  predicate Interior(p: Params, x: int, y: int) {
    X0(p) <= x <= X1(p) && Y0(p) <= y <= Y1(p)
  }

  function BigWindow(p: Params, x: int, y: int): Box {
    Window(x, y, Radius(p.Xb), Radius(p.Yb))
  }

  function SmallWindow(p: Params, x: int, y: int): Box {
    Window(x, y, Radius(p.Xs), Radius(p.Ys))
  }

  /** Valid parameters leave at least one centre to scan. */
  lemma InteriorNonEmpty(p: Params)
    requires ValidateParams(p)
    ensures X0(p) <= X1(p) && Y0(p) <= Y1(p)
    ensures Interior(p, X0(p), Y0(p))
  {
    RadiiOfValid(p);
  }

  /** At an interior centre both windows lie inside the matrix and the centre's flat index is in
      bounds. */
  lemma WindowsFit(p: Params, x: int, y: int)
    requires ValidateParams(p) && Interior(p, x, y)
    ensures Fits(BigWindow(p, x, y), p.X, p.Y) && Fits(SmallWindow(p, x, y), p.X, p.Y)
    ensures 0 <= Idx(x, y, p.X) < Cells(p.X, p.Y)
  {
    RadiiOfValid(p);
    CellIndexInBounds(p.X, p.Y, x, y);
  }

  /** At an interior centre every cell either window covers, and the centre itself, is a cell of
      the matrix, so every read the detector makes is in bounds; the small window lies inside the
      big one, and the windows have exactly Xb*Yb and Xs*Ys cells. */
  lemma WindowsInMatrix(p: Params, x: int, y: int)
    requires ValidateParams(p) && Interior(p, x, y)
    ensures Fits(BigWindow(p, x, y), p.X, p.Y) && Fits(SmallWindow(p, x, y), p.X, p.Y)
    ensures Contains(BigWindow(p, x, y), SmallWindow(p, x, y))
    ensures 0 <= Idx(x, y, p.X) < Cells(p.X, p.Y)
    ensures forall xx, yy :: InBox(BigWindow(p, x, y), xx, yy) ==> 0 <= Idx(xx, yy, p.X) < Cells(p.X, p.Y)
    ensures Proper(BigWindow(p, x, y)) && Area(BigWindow(p, x, y)) == Cells(p.Xb, p.Yb)
    ensures Proper(SmallWindow(p, x, y)) && Area(SmallWindow(p, x, y)) == Cells(p.Xs, p.Ys)
  {
    RadiiOfValid(p);
    CellIndexInBounds(p.X, p.Y, x, y);
    forall xx, yy | InBox(BigWindow(p, x, y), xx, yy)
      ensures 0 <= Idx(xx, yy, p.X) < Cells(p.X, p.Y)
    {
      CellIndexInBounds(p.X, p.Y, xx, yy);
    }
    var b, s := BigWindow(p, x, y), SmallWindow(p, x, y);
    assert b.xhi - b.xlo + 1 == p.Xb && b.yhi - b.ylo + 1 == p.Yb;
    assert s.xhi - s.xlo + 1 == p.Xs && s.yhi - s.ylo + 1 == p.Ys;
  }
}

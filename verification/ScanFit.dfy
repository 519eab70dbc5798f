/** The least-squares line of the first-run scan. */
module ScanFit {
  import opened Rounding
  import opened Thermal

  /** One settled observation at a held fan level. */
  datatype ScanPoint = ScanPoint(fanPct: int, tempC: real) {
    function X(): real { fanPct as real }
  }

  datatype Line = Line(a: real, b: real) {
    function At(x: real): real { a + Times(b, x) }
  }

  // ------------------------------------------------------------ sums and errors

  ghost function SumX(ps: seq<ScanPoint>): real {
    if ps == [] then 0.0 else SumX(ps[..|ps| - 1]) + ps[|ps| - 1].X()
  }

  ghost function SumY(ps: seq<ScanPoint>): real {
    if ps == [] then 0.0 else SumY(ps[..|ps| - 1]) + ps[|ps| - 1].tempC
  }

  ghost function SumXX(ps: seq<ScanPoint>): real {
    if ps == [] then 0.0 else SumXX(ps[..|ps| - 1]) + Times(ps[|ps| - 1].X(), ps[|ps| - 1].X())
  }

  ghost function SumXY(ps: seq<ScanPoint>): real {
    if ps == [] then 0.0 else SumXY(ps[..|ps| - 1]) + Times(ps[|ps| - 1].X(), ps[|ps| - 1].tempC)
  }

  /** n Sxx - Sx^2, the denominator of the normal equations. */
  ghost function Denominator(ps: seq<ScanPoint>): real {
    Times(|ps| as real, SumXX(ps)) - Times(SumX(ps), SumX(ps))
  }

  function Residual(p: ScanPoint, l: Line): real { p.tempC - l.At(p.X()) }

  /** The squared error of a line over the points. */
  ghost function SquaredError(ps: seq<ScanPoint>, l: Line): real {
    if ps == [] then 0.0
    else
      var r := Residual(ps[|ps| - 1], l);
      SquaredError(ps[..|ps| - 1], l) + Times(r, r)
  }

  ghost predicate TwoLevels(ps: seq<ScanPoint>) {
    exists i, j :: 0 <= i < |ps| && 0 <= j < |ps| && ps[i].fanPct != ps[j].fanPct
  }

  /** No line has a smaller squared error, and no other line has the same. */
  ghost predicate IsTheLeastSquaresLine(ps: seq<ScanPoint>, l: Line) {
    && (forall m: Line :: SquaredError(ps, l) <= SquaredError(ps, m))
    && (forall m: Line :: SquaredError(ps, m) == SquaredError(ps, l) ==> m == l)
  }

  // ------------------------------------------------------------ the two loops

  method TwoDistinctFans(pts: seq<ScanPoint>) returns (two: bool)
    ensures two <==> TwoLevels(pts)
  {
    if |pts| < 2 {
      return false;
    }
    var first := pts[0].fanPct;
    for i := 1 to |pts|
      invariant forall j :: 0 <= j < i ==> pts[j].fanPct == first
    {
      if pts[i].fanPct != first {
        assert pts[0].fanPct != pts[i].fanPct;
        return true;
      }
    }
    return false;
  }

  /** The solution of the two normal equations. */
  function SolveLine(n: real, sx: real, sy: real, sxx: real, sxy: real): Line
    requires n > 0.0 && Times(n, sxx) - Times(sx, sx) != 0.0
  {
    var b := (Times(n, sxy) - Times(sx, sy)) / (Times(n, sxx) - Times(sx, sx));
    Line((sy - Times(b, sx)) / n, b)
  }

  /** The line the scan fits. */
  ghost function NormalLine(ps: seq<ScanPoint>): Line
    requires TwoLevels(ps)
  {
    DenominatorZeroIffOneLevel(ps);
    SolveLine(|ps| as real, SumX(ps), SumY(ps), SumXX(ps), SumXY(ps))
  }

  method LinFit(pts: seq<ScanPoint>) returns (fit: Option<Line>)
    ensures fit.Some? <==> TwoLevels(pts)
    ensures fit.Some? ==> fit.value == NormalLine(pts)
    ensures fit.Some? ==> IsTheLeastSquaresLine(pts, fit.value)
  {
    hide Times, IsTheLeastSquaresLine, NormalLine;
    var n := |pts| as real;
    if |pts| < 2 {
      return None;
    }
    var sx, sy, sxx, sxy := 0.0, 0.0, 0.0, 0.0;
    for i := 0 to |pts|
      invariant sx == SumX(pts[..i]) && sy == SumY(pts[..i])
      invariant sxx == SumXX(pts[..i]) && sxy == SumXY(pts[..i])
    {
      assert pts[..i + 1][..i] == pts[..i];
      var x, y := pts[i].X(), pts[i].tempC;
      sx := sx + x;
      sy := sy + y;
      sxx := sxx + Times(x, x);
      sxy := sxy + Times(x, y);
    }
    assert pts[..|pts|] == pts;
    var denom := Times(n, sxx) - Times(sx, sx);
    DenominatorZeroIffOneLevel(pts);
    if denom == 0.0 {
      return None;
    }
    fit := Some(SolveLine(n, sx, sy, sxx, sxy));
    NormalLineIs(pts);
    NormalLineIsLeastSquares(pts);
  }

  lemma NormalLineIs(ps: seq<ScanPoint>)
    requires TwoLevels(ps)
    ensures Denominator(ps) > 0.0
    ensures NormalLine(ps) == SolveLine(|ps| as real, SumX(ps), SumY(ps), SumXX(ps), SumXY(ps))
  {
    hide Times, SumX, SumY, SumXX, SumXY;
    DenominatorZeroIffOneLevel(ps);
  }

  // ---------------------------------------------------------- the denominator

  /** The squared distances of the levels of `ps` to one more level. */
  ghost function Spread(ps: seq<ScanPoint>, x: real): real {
    if ps == [] then 0.0
    else
      var d := ps[|ps| - 1].X() - x;
      Spread(ps[..|ps| - 1], x) + Times(d, d)
  }

  lemma {:induction false} SpreadExpands(ps: seq<ScanPoint>, x: real)
    ensures Spread(ps, x) == SumXX(ps) - 2.0 * Times(x, SumX(ps)) + Times(|ps| as real, Times(x, x))
  {
    hide Times;
    if ps == [] {
      TimesZero(x);
      TimesZero(Times(x, x));
    } else {
      var q := ps[..|ps| - 1];
      SpreadExpands(q, x);
      assert |ps| as real == |q| as real + 1.0;
      SpreadScalars(|q| as real, SumX(q), ps[|ps| - 1].X(), x, Times(x, x));
    }
  }

  lemma SpreadScalars(n: real, sx: real, x0: real, x: real, xx: real)
    ensures Times(x0 - x, x0 - x) == Times(x0, x0) - 2.0 * Times(x, x0) + Times(x, x)
    ensures Times(x, sx + x0) == Times(x, sx) + Times(x, x0)
    ensures Times(n + 1.0, xx) == Times(n, xx) + xx
  {
  }

  predicate OneLevel(ps: seq<ScanPoint>, x: real) {
    forall i :: 0 <= i < |ps| ==> ps[i].X() == x
  }

  lemma {:induction false} SpreadSign(ps: seq<ScanPoint>, x: real)
    ensures OneLevel(ps, x) ==> Spread(ps, x) == 0.0
    ensures !OneLevel(ps, x) ==> Spread(ps, x) > 0.0
  {
    hide Times;
    if ps != [] {
      var q := ps[..|ps| - 1];
      SpreadSign(q, x);
      SquareSign(ps[|ps| - 1].X() - x);
      assert OneLevel(ps, x) <==> OneLevel(q, x) && ps[|ps| - 1].X() == x;
    }
  }

  /** Adding a point adds its spread to the denominator. */
  lemma DenominatorGrows(ps: seq<ScanPoint>)
    requires ps != []
    ensures var q := ps[..|ps| - 1];
      Denominator(ps) == Denominator(q) + Spread(q, ps[|ps| - 1].X())
  {
    hide Times, Spread;
    var q, x := ps[..|ps| - 1], ps[|ps| - 1].X();
    SpreadExpands(q, x);
    assert |ps| as real == |q| as real + 1.0;
    DenominatorScalars(|q| as real, SumX(q), SumXX(q), x);
  }

  lemma DenominatorScalars(n: real, sx: real, sxx: real, x: real)
    ensures Times(n + 1.0, sxx + Times(x, x)) == Times(n, sxx) + Times(n, Times(x, x)) + sxx + Times(x, x)
    ensures Times(sx + x, sx + x) == Times(sx, sx) + 2.0 * Times(x, sx) + Times(x, x)
  {
  }

  /** The denominator is never negative, and zero exactly when every point was
      taken at one fan level. */
  lemma {:induction false} DenominatorZeroIffOneLevel(ps: seq<ScanPoint>)
    ensures Denominator(ps) >= 0.0
    ensures Denominator(ps) == 0.0 <==> !TwoLevels(ps)
  {
    if ps == [] {
      TimesZero(0.0);
    } else {
      hide Denominator, Spread;
      var q, x := ps[..|ps| - 1], ps[|ps| - 1].X();
      DenominatorZeroIffOneLevel(q);
      DenominatorGrows(ps);
      SpreadSign(q, x);
      assert TwoLevels(q) ==> TwoLevels(ps);
      if OneLevel(q, x) {
        assert !TwoLevels(ps);
      } else {
        var i :| 0 <= i < |q| && q[i].X() != x;
        assert ps[i].fanPct != ps[|ps| - 1].fanPct;
      }
    }
  }

  // ------------------------------------------------------------ least squares

  /** The sum of squares of a line over the levels of the points. */
  ghost function Energy(ps: seq<ScanPoint>, d: Line): real {
    if ps == [] then 0.0
    else
      var v := d.At(ps[|ps| - 1].X());
      Energy(ps[..|ps| - 1], d) + Times(v, v)
  }

  lemma {:induction false} EnergySign(ps: seq<ScanPoint>, d: Line)
    ensures Energy(ps, d) >= 0.0
    ensures Energy(ps, d) == 0.0 ==> forall i :: 0 <= i < |ps| ==> d.At(ps[i].X()) == 0.0
  {
    hide Times;
    if ps != [] {
      EnergySign(ps[..|ps| - 1], d);
      SquareSign(d.At(ps[|ps| - 1].X()));
    }
  }

  /** The two residual sums that the normal equations set to zero. */
  ghost function ResidualSum(ps: seq<ScanPoint>, l: Line): real {
    if ps == [] then 0.0
    else ResidualSum(ps[..|ps| - 1], l) + Residual(ps[|ps| - 1], l)
  }

  ghost function ResidualMoment(ps: seq<ScanPoint>, l: Line): real {
    if ps == [] then 0.0
    else
      var p := ps[|ps| - 1];
      ResidualMoment(ps[..|ps| - 1], l) + Times(Residual(p, l), p.X())
  }

  /** Moving a line by `d` changes its squared error by the energy of `d` less
      twice the residuals seen by `d`. */
  lemma {:induction false} ErrorOfMovedLine(ps: seq<ScanPoint>, l: Line, d: Line, m: Line)
    requires m.a == l.a + d.a && m.b == l.b + d.b
    ensures SquaredError(ps, m)
         == SquaredError(ps, l) + Energy(ps, d)
            - 2.0 * (Times(d.a, ResidualSum(ps, l)) + Times(d.b, ResidualMoment(ps, l)))
  {
    hide Times;
    if ps == [] {
      TimesZero(d.a);
      TimesZero(d.b);
    } else {
      var q, p := ps[..|ps| - 1], ps[|ps| - 1];
      ErrorOfMovedLine(q, l, d, m);
      MovedResidual(p, l, d, m);
      MovedScalars(ResidualSum(q, l), ResidualMoment(q, l), Residual(p, l), d.At(p.X()), p.X(), d);
    }
  }

  lemma MovedResidual(p: ScanPoint, l: Line, d: Line, m: Line)
    requires m.a == l.a + d.a && m.b == l.b + d.b
    ensures Residual(p, m) == Residual(p, l) - d.At(p.X())
  {
    TimesSum(l.b, d.b, p.X());
  }

  lemma TimesSum(b1: real, b2: real, x: real)
    ensures Times(b1 + b2, x) == Times(b1, x) + Times(b2, x)
  {
  }

  lemma MovedScalars(s: real, m: real, r: real, v: real, x: real, d: Line)
    requires v == d.At(x)
    ensures Times(r - v, r - v) == Times(r, r) + Times(v, v) - 2.0 * Times(r, v)
    ensures Times(d.a, s + r) == Times(d.a, s) + Times(d.a, r)
    ensures Times(d.b, m + Times(r, x)) == Times(d.b, m) + Times(d.b, Times(r, x))
    ensures Times(r, v) == Times(d.a, r) + Times(d.b, Times(r, x))
  {
  }

  lemma {:induction false} ResidualsInSums(ps: seq<ScanPoint>, l: Line)
    ensures ResidualSum(ps, l) == SumY(ps) - Times(|ps| as real, l.a) - Times(l.b, SumX(ps))
    ensures ResidualMoment(ps, l) == SumXY(ps) - Times(l.a, SumX(ps)) - Times(l.b, SumXX(ps))
  {
    hide Times;
    if ps == [] {
      TimesZero(l.a);
      TimesZero(l.b);
    } else {
      var q, p := ps[..|ps| - 1], ps[|ps| - 1];
      ResidualsInSums(q, l);
      assert |ps| as real == |q| as real + 1.0;
      ResidualScalars(|q| as real, SumX(q), SumXX(q), p, l);
    }
  }

  lemma ResidualScalars(n: real, sx: real, sxx: real, p: ScanPoint, l: Line)
    ensures Times(n + 1.0, l.a) == Times(n, l.a) + l.a
    ensures Times(l.b, sx + p.X()) == Times(l.b, sx) + Times(l.b, p.X())
    ensures Times(l.a, sx + p.X()) == Times(l.a, sx) + Times(l.a, p.X())
    ensures Times(l.b, sxx + Times(p.X(), p.X())) == Times(l.b, sxx) + Times(l.b, Times(p.X(), p.X()))
    ensures Times(Residual(p, l), p.X())
         == Times(p.X(), p.tempC) - Times(l.a, p.X()) - Times(l.b, Times(p.X(), p.X()))
  {
  }

  lemma NormalEquations(ps: seq<ScanPoint>)
    requires TwoLevels(ps)
    ensures ResidualSum(ps, NormalLine(ps)) == 0.0
    ensures ResidualMoment(ps, NormalLine(ps)) == 0.0
  {
    hide Times, SumX, SumY, SumXX, SumXY, ResidualSum, ResidualMoment, SolveLine;
    NormalLineIs(ps);
    ResidualsInSums(ps, NormalLine(ps));
    SolveNormal(|ps| as real, SumX(ps), SumY(ps), SumXX(ps), SumXY(ps));
  }

  lemma SolveNormal(n: real, sx: real, sy: real, sxx: real, sxy: real)
    requires n > 0.0 && Times(n, sxx) - Times(sx, sx) > 0.0
    ensures var l := SolveLine(n, sx, sy, sxx, sxy);
      && sy - Times(n, l.a) - Times(l.b, sx) == 0.0
      && sxy - Times(l.a, sx) - Times(l.b, sxx) == 0.0
  {
    hide Times;
    var l := SolveLine(n, sx, sy, sxx, sxy);
    Quotient(Times(n, sxy) - Times(sx, sy), Times(n, sxx) - Times(sx, sx));
    Quotient(sy - Times(l.b, sx), n);
    NormalMoment(n, sx, sy, sxx, sxy, l.a, l.b);
  }

  lemma NormalMoment(n: real, sx: real, sy: real, sxx: real, sxy: real, a: real, b: real)
    requires n > 0.0
    requires a * n == sy - Times(b, sx)
    requires b * (Times(n, sxx) - Times(sx, sx)) == Times(n, sxy) - Times(sx, sy)
    ensures sy - Times(n, a) - Times(b, sx) == 0.0
    ensures sxy - Times(a, sx) - Times(b, sxx) == 0.0
  {
    calc {
      n * (sxy - a * sx - b * sxx);
      n * sxy - (n * a) * sx - b * (n * sxx);
      n * sxy - (sy - b * sx) * sx - b * (n * sxx);
      n * sxy - sx * sy - b * (n * sxx - sx * sx);
      0.0;
    }
    ProductZero(n, sxy - a * sx - b * sxx);
  }

  lemma ProductZero(n: real, x: real)
    requires n > 0.0 && n * x == 0.0
    ensures x == 0.0
  {
  }

  /** Optimality, with equality only for the fitted line itself. */
  lemma NormalLineIsLeastSquares(ps: seq<ScanPoint>)
    requires TwoLevels(ps)
    ensures IsTheLeastSquaresLine(ps, NormalLine(ps))
  {
    hide Times, SquaredError, Energy, ResidualSum, ResidualMoment, NormalLine;
    var l := NormalLine(ps);
    NormalEquations(ps);
    forall m: Line
      ensures SquaredError(ps, l) <= SquaredError(ps, m)
      ensures SquaredError(ps, m) == SquaredError(ps, l) ==> m == l
    {
      var d := Line(m.a - l.a, m.b - l.b);
      ErrorOfMovedLine(ps, l, d, m);
      TimesZero(d.a);
      TimesZero(d.b);
      EnergySign(ps, d);
      if Energy(ps, d) == 0.0 {
        ZeroAtTwoLevels(ps, d);
      }
    }
  }

  lemma ZeroAtTwoLevels(ps: seq<ScanPoint>, d: Line)
    requires TwoLevels(ps)
    requires forall i :: 0 <= i < |ps| ==> d.At(ps[i].X()) == 0.0
    ensures d == Line(0.0, 0.0)
  {
    hide Times;
    var i, j :| 0 <= i < |ps| && 0 <= j < |ps| && ps[i].fanPct != ps[j].fanPct;
    assert d.At(ps[i].X()) == 0.0 && d.At(ps[j].X()) == 0.0;
    ZeroTwice(d.a, d.b, ps[i].X(), ps[j].X());
  }

  lemma ZeroTwice(a: real, b: real, x: real, y: real)
    requires x != y && a + Times(b, x) == 0.0 && a + Times(b, y) == 0.0
    ensures a == 0.0 && b == 0.0
  {
    assert b * (x - y) == 0.0;
  }

  lemma {:induction false} ExactLineHasNoError(ps: seq<ScanPoint>, l: Line)
    requires forall i :: 0 <= i < |ps| ==> ps[i].tempC == l.At(ps[i].X())
    ensures SquaredError(ps, l) == 0.0
  {
    hide Times;
    if ps != [] {
      ExactLineHasNoError(ps[..|ps| - 1], l);
      TimesZero(0.0);
    }
  }

  lemma {:induction false} ErrorNotNegative(ps: seq<ScanPoint>, l: Line)
    ensures SquaredError(ps, l) >= 0.0
  {
    hide Times;
    if ps != [] {
      ErrorNotNegative(ps[..|ps| - 1], l);
      SquareSign(Residual(ps[|ps| - 1], l));
    }
  }

  /** A plant that is exactly linear is recovered exactly. */
  lemma CollinearRecovered(ps: seq<ScanPoint>, l: Line)
    requires TwoLevels(ps)
    requires forall i :: 0 <= i < |ps| ==> ps[i].tempC == l.At(ps[i].X())
    ensures NormalLine(ps) == l
  {
    hide SquaredError, NormalLine, Times;
    ExactLineHasNoError(ps, l);
    ErrorNotNegative(ps, NormalLine(ps));
    NormalLineIsLeastSquares(ps);
  }
}

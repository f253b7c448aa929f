/** Origin-shifted least squares over the real numbers. */
module LeastSquares {

  // ---- the sums ----

  function Sum(xs: seq<real>): real {
    if xs == [] then 0.0 else Sum(xs[..|xs| - 1]) + xs[|xs| - 1]
  }

  /** A product that proofs about sums need not look into. */
  function Product(x: real, y: real): real {
    x * y
  }

  function SumProducts(xs: seq<real>, ys: seq<real>): real
    requires |xs| == |ys|
  {
    if xs == [] then 0.0
    else SumProducts(xs[..|xs| - 1], ys[..|ys| - 1]) + Product(xs[|xs| - 1], ys[|ys| - 1])
  }

  function Shifted(t: seq<real>, origin: real): (xs: seq<real>)
    ensures |xs| == |t| && forall i :: 0 <= i < |t| ==> xs[i] == t[i] - origin
  {
    seq(|t|, i requires 0 <= i < |t| => t[i] - origin)
  }

  /** The variation of the abscissas, as the closed form writes it. */
  function VarX(xs: seq<real>): real
    requires xs != []
  {
    VarOf(|xs| as real, Sum(xs), SumProducts(xs, xs))
  }

  function VarOf(count: real, sumX: real, sumX2: real): real
    requires count > 0.0
  {
    sumX2 - sumX * sumX / count
  }

  /** Too few readings give NaN; a vanishing variation is where the source divides by zero. */
  datatype LinearFit = TooFew | DividesByZero | Line(slope: real, intercept: real)

  /** The closed form in the four sums. */
  function Solve(count: real, sumX: real, sumY: real, sumXY: real, sumX2: real): LinearFit
    requires count > 0.0
  {
    var varX := VarOf(count, sumX, sumX2);
    if varX == 0.0 then DividesByZero
    else
      var slope := (sumXY - sumX * sumY / count) / varX;
      Line(slope, sumY / count - slope * sumX / count)
  }

  function FitOf(t: seq<real>, v: seq<real>, origin: real): LinearFit
    requires |t| == |v|
  {
    if |t| < 2 then TooFew
    else
      var xs := Shifted(t, origin);
      Solve(|t| as real, Sum(xs), Sum(v), SumProducts(xs, v), SumProducts(xs, xs))
  }

  lemma SumsOneMore(xs: seq<real>, ys: seq<real>, i: nat)
    requires |xs| == |ys| && i < |xs|
    ensures Sum(xs[..i + 1]) == Sum(xs[..i]) + xs[i]
    ensures SumProducts(xs[..i + 1], ys[..i + 1]) == SumProducts(xs[..i], ys[..i]) + Product(xs[i], ys[i])
  {
    hide Product;
    var a, b := xs[..i + 1], ys[..i + 1];
    assert a[..|a| - 1] == xs[..i] && b[..|b| - 1] == ys[..i];
    assert a[|a| - 1] == xs[i] && b[|b| - 1] == ys[i];
  }

  method LinearRegression(t: seq<real>, v: seq<real>, origin: real) returns (fit: LinearFit)
    requires |t| == |v|
    ensures fit == FitOf(t, v, origin)
  {
    hide Sum, SumProducts, FitOf, Product;
    FitInSums(t, v, origin);
    if |t| < 2 {
      return TooFew;
    }
    ghost var xs := Shifted(t, origin);
    EmptySums(0.0, 0.0);
    var sumX, sumY, sumXY, sumX2 := 0.0, 0.0, 0.0, 0.0;
    for i := 0 to |t|
      invariant sumX == Sum(xs[..i]) && sumY == Sum(v[..i])
      invariant sumXY == SumProducts(xs[..i], v[..i]) && sumX2 == SumProducts(xs[..i], xs[..i])
    {
      SumsOneMore(xs, v, i);
      SumsOneMore(xs, xs, i);
      SumsOneMore(v, v, i);
      var x := t[i] - origin;
      ProductsAre(x, v[i]);
      sumX := sumX + x;
      sumY := sumY + v[i];
      sumXY := sumXY + x * v[i];
      sumX2 := sumX2 + x * x;
    }
    assert xs[..|t|] == xs && v[..|t|] == v;
    fit := Solve(|t| as real, sumX, sumY, sumXY, sumX2);
  }

  lemma FitInSums(t: seq<real>, v: seq<real>, origin: real)
    requires |t| == |v|
    ensures |t| < 2 ==> FitOf(t, v, origin) == TooFew
    ensures |t| >= 2 ==>
              var xs := Shifted(t, origin);
              FitOf(t, v, origin) == Solve(|t| as real, Sum(xs), Sum(v), SumProducts(xs, v), SumProducts(xs, xs))
  {
    hide Solve, Sum, SumProducts;
  }

  lemma ProductsAre(x: real, y: real)
    ensures Product(x, y) == x * y && Product(x, x) == x * x
  {
  }

  lemma EmptySums(a: real, b: real)
    ensures Sum([]) == 0.0 && SumProducts([], []) == 0.0
    ensures SquaredLine([], a, b) == 0.0 && Residuals([], [], a, b) == 0.0
  {
  }

  // ---- the variation ----

  function SquaredLine(xs: seq<real>, a: real, b: real): real {
    if xs == [] then 0.0
    else
      var r := a * xs[|xs| - 1] + b;
      SquaredLine(xs[..|xs| - 1], a, b) + Product(r, r)
  }

  lemma SquaredLineOneMore(xs: seq<real>, a: real, b: real)
    requires xs != []
    ensures var r := a * xs[|xs| - 1] + b;
      SquaredLine(xs, a, b) == SquaredLine(xs[..|xs| - 1], a, b) + Product(r, r)
  {
    hide Product;
  }

  lemma {:induction false} SquaredLineExpands(xs: seq<real>, a: real, b: real)
    ensures SquaredLine(xs, a, b)
         == a * a * SumProducts(xs, xs) + 2.0 * a * b * Sum(xs) + |xs| as real * (b * b)
  {
    hide SquaredLine, Sum, SumProducts;
    if xs == [] {
      EmptySums(a, b);
    } else {
      var n := |xs| - 1;
      var init, x := xs[..n], xs[n];
      SquaredLineExpands(init, a, b);
      SquaredLineOneMore(xs, a, b);
      assert xs[..n + 1] == xs;
      SumsOneMore(xs, xs, n);
      SquareStep(a, b, x, SumProducts(init, init), Sum(init), n as real);
    }
  }

  lemma SquareStep(a: real, b: real, x: real, sxx: real, sx: real, n: real)
    ensures a * a * sxx + 2.0 * a * b * sx + n * (b * b) + (a * x + b) * (a * x + b)
         == a * a * (sxx + x * x) + 2.0 * a * b * (sx + x) + (n + 1.0) * (b * b)
  {
  }

  /** The abscissa `x` is a zero of the line. */
  predicate IsZero(a: real, b: real, x: real) {
    a * x + b == 0.0
  }

  lemma ProductOfSameSign(x: real, y: real)
    requires (x > 0.0 && y > 0.0) || (x < 0.0 && y < 0.0)
    ensures Product(x, y) > 0.0
  {
    assert x < 0.0 ==> (-x) * (-y) > 0.0;
  }

  lemma SquareAt(a: real, b: real, x: real)
    ensures Product(a * x + b, a * x + b) >= 0.0
    ensures Product(a * x + b, a * x + b) == 0.0 <==> IsZero(a, b, x)
  {
    SquareSign(a * x + b);
  }

  lemma SquareSign(r: real)
    ensures Product(r, r) >= 0.0
    ensures Product(r, r) == 0.0 <==> r == 0.0
  {
    if r != 0.0 {
      hide Product;
      ProductOfSameSign(r, r);
    }
  }

  lemma {:induction false} SquaredLineSign(xs: seq<real>, a: real, b: real)
    ensures SquaredLine(xs, a, b) >= 0.0
    ensures SquaredLine(xs, a, b) == 0.0 <==> forall i :: 0 <= i < |xs| ==> IsZero(a, b, xs[i])
  {
    hide Product, IsZero;
    if xs != [] {
      var init, x := xs[..|xs| - 1], xs[|xs| - 1];
      SquaredLineSign(init, a, b);
      SquareAt(a, b, x);
      SquaredLineOneMore(xs, a, b);
      assert xs == init + [x];
    }
  }

  ghost predicate TwoDiffer(xs: seq<real>) {
    exists i, j :: 0 <= i < |xs| && 0 <= j < |xs| && xs[i] != xs[j]
  }

  /** The variation is the squared distance from the mean. */
  lemma VarXIsSquaredDeviation(xs: seq<real>)
    requires xs != []
    ensures VarX(xs) == SquaredLine(xs, 1.0, -(Sum(xs) / |xs| as real))
  {
    hide Sum, SumProducts, SquaredLine;
    SquaredLineExpands(xs, 1.0, -(Sum(xs) / |xs| as real));
    DeviationAlgebra(|xs| as real, Sum(xs), SumProducts(xs, xs));
  }

  lemma DeviationAlgebra(n: real, s: real, q: real)
    requires n > 0.0
    ensures var b := -(s / n);
      q - s * s / n == 1.0 * 1.0 * q + 2.0 * 1.0 * b * s + n * (b * b)
  {
    var m, w := s / n, s * s / n;
    assert m * n == s && w * n == s * s;
    assert m * s == w by {
      assert (m * s) * n == w * n;
    }
    assert n * (m * m) == m * s;
  }

  /** The variation is never negative, and positive exactly when two abscissas differ. */
  lemma VarXIsPositiveIffTwoDiffer(xs: seq<real>)
    requires xs != []
    ensures VarX(xs) >= 0.0
    ensures VarX(xs) > 0.0 <==> TwoDiffer(xs)
  {
    hide VarX, SquaredLine;
    var m := Sum(xs) / |xs| as real;
    VarXIsSquaredDeviation(xs);
    SquaredLineSign(xs, 1.0, -m);
    if VarX(xs) == 0.0 {
      forall i | 0 <= i < |xs| ensures xs[i] == m {
        assert IsZero(1.0, -m, xs[i]);
      }
    } else if !TwoDiffer(xs) {
      AllAtTheMean(xs, xs[0]);
    }
  }

  lemma AllAtTheMean(xs: seq<real>, x: real)
    requires xs != [] && forall i :: 0 <= i < |xs| ==> xs[i] == x
    ensures forall i :: 0 <= i < |xs| ==> IsZero(1.0, -(Sum(xs) / |xs| as real), xs[i])
  {
    hide IsZero, Sum;
    SumOfEqual(xs, x);
    MeanOfEqual(|xs| as real, x, Sum(xs));
  }

  lemma MeanOfEqual(n: real, x: real, sum: real)
    requires n > 0.0 && sum == x * n
    ensures IsZero(1.0, -(sum / n), x)
  {
    var mean := sum / n;
    assert mean * n == sum;
    assert (mean - x) * n == 0.0;
    assert mean == x;
  }

  lemma {:induction false} SumOfEqual(xs: seq<real>, x: real)
    requires forall i :: 0 <= i < |xs| ==> xs[i] == x
    ensures Sum(xs) == x * |xs| as real
  {
    if xs != [] {
      SumOfEqual(xs[..|xs| - 1], x);
    }
  }

  // ---- the residuals ----

  /** The sum of squared residuals of the line with slope `a` and value `b` at abscissa zero. */
  function Residuals(xs: seq<real>, ys: seq<real>, a: real, b: real): real
    requires |xs| == |ys|
  {
    if xs == [] then 0.0
    else
      var r := ys[|ys| - 1] - (a * xs[|xs| - 1] + b);
      Residuals(xs[..|xs| - 1], ys[..|ys| - 1], a, b) + Product(r, r)
  }

  lemma ResidualsOneMore(xs: seq<real>, ys: seq<real>, i: nat, a: real, b: real)
    requires |xs| == |ys| && i < |xs|
    ensures var r := ys[i] - (a * xs[i] + b);
      Residuals(xs[..i + 1], ys[..i + 1], a, b) == Residuals(xs[..i], ys[..i], a, b) + Product(r, r)
  {
    hide Product;
    var xt, yt := xs[..i + 1], ys[..i + 1];
    assert xt[..|xt| - 1] == xs[..i] && yt[..|yt| - 1] == ys[..i];
    var x, y := xt[|xt| - 1], yt[|yt| - 1];
    assert x == xs[i] && y == ys[i];
  }

  lemma {:induction false} ResidualsExpand(xs: seq<real>, ys: seq<real>, a: real, b: real)
    requires |xs| == |ys|
    ensures Residuals(xs, ys, a, b)
         == SumProducts(ys, ys) - 2.0 * a * SumProducts(xs, ys) - 2.0 * b * Sum(ys)
            + (a * a * SumProducts(xs, xs) + 2.0 * a * b * Sum(xs) + |xs| as real * (b * b))
  {
    hide Residuals, Sum, SumProducts, Product;
    if xs == [] {
      EmptySums(a, b);
    } else {
      var n := |xs| - 1;
      var xi, yi := xs[..n], ys[..n];
      ResidualsExpand(xi, yi, a, b);
      assert xs[..n + 1] == xs && ys[..n + 1] == ys;
      ResidualsOneMore(xs, ys, n, a, b);
      SumsOneMore(xs, ys, n);
      SumsOneMore(ys, ys, n);
      SumsOneMore(xs, xs, n);
      ResidualStep(ys[n], xs[n], a, b, SumProducts(yi, yi), SumProducts(xi, yi), Sum(yi), SumProducts(xi, xi), Sum(xi),
                   n as real);
    }
  }

  lemma ResidualStep(y: real, x: real, a: real, b: real, syy: real, sxy: real, sy: real, sxx: real, sx: real, n: real)
    ensures var f := a * x + b;
      syy - 2.0 * a * sxy - 2.0 * b * sy + (a * a * sxx + 2.0 * a * b * sx + n * (b * b)) + Product(y - f, y - f)
      == (syy + Product(y, y)) - 2.0 * a * (sxy + Product(x, y)) - 2.0 * b * (sy + y)
         + (a * a * (sxx + Product(x, x)) + 2.0 * a * b * (sx + x) + (n + 1.0) * (b * b))
  {
    var f := a * x + b;
    SquareStep(a, b, x, sxx, sx, n);
    SquareOfDifference(y, f);
    assert y * f == a * (x * y) + b * y;
    assert 2.0 * a * (sxy + x * y) == 2.0 * a * sxy + 2.0 * (a * (x * y));
  }

  lemma SquareOfDifference(y: real, f: real)
    ensures (y - f) * (y - f) == y * y - 2.0 * (y * f) + f * f
  {
  }

  // ---- the fit is optimal ----

  /** The two normal equations of the returned line. */
  lemma FitSolvesNormalEquations(t: seq<real>, v: seq<real>, origin: real)
    requires |t| == |v| && FitOf(t, v, origin).Line?
    ensures var f := FitOf(t, v, origin);
      var xs := Shifted(t, origin);
      && f.slope * Sum(xs) + |t| as real * f.intercept == Sum(v)
      && f.slope * SumProducts(xs, xs) + f.intercept * Sum(xs) == SumProducts(xs, v)
  {
    hide Sum, SumProducts, Solve;
    var xs := Shifted(t, origin);
    SolveNormalEquations(|t| as real, Sum(xs), Sum(v), SumProducts(xs, v), SumProducts(xs, xs));
  }

  lemma SolveNormalEquations(n: real, sx: real, sy: real, sxy: real, sxx: real)
    requires n > 0.0 && Solve(n, sx, sy, sxy, sxx).Line?
    ensures var f := Solve(n, sx, sy, sxy, sxx);
      f.slope * sx + n * f.intercept == sy && f.slope * sxx + f.intercept * sx == sxy
  {
    var f := Solve(n, sx, sy, sxy, sxx);
    NormalEquations(n, sx, sy, sxx, sxy, f.slope, f.intercept);
  }

  lemma NormalEquations(n: real, sx: real, sy: real, sxx: real, sxy: real, a: real, b: real)
    requires n > 0.0 && sxx - sx * sx / n != 0.0
    requires a == (sxy - sx * sy / n) / (sxx - sx * sx / n)
    requires b == sy / n - a * sx / n
    ensures a * sx + n * b == sy
    ensures a * sxx + b * sx == sxy
  {
    var my, asx := sy / n, a * sx / n;
    assert n * my == sy && n * asx == a * sx;
    var sq, xy := sx * sx / n, sx * sy / n;
    assert sq * n == sx * sx && xy * n == sx * sy;
    assert a * (sxx - sq) == sxy - xy;
    assert my * sx == xy by { assert (my * sx) * n == xy * n; }
    assert asx * sx == a * sq by { assert (asx * sx) * n == (a * sq) * n; }
    assert b * sx == my * sx - asx * sx;
  }

  /** Moving away from the fit costs exactly the squared difference of the two lines. */
  lemma ExcessIsSquaredDifference(t: seq<real>, v: seq<real>, origin: real, a: real, b: real)
    requires |t| == |v| && FitOf(t, v, origin).Line?
    ensures var f := FitOf(t, v, origin);
      var xs := Shifted(t, origin);
      Residuals(xs, v, a, b)
        == Residuals(xs, v, f.slope, f.intercept) + SquaredLine(xs, a - f.slope, b - f.intercept)
  {
    hide Sum, SumProducts, FitOf, Residuals, SquaredLine;
    var f, xs := FitOf(t, v, origin), Shifted(t, origin);
    FitSolvesNormalEquations(t, v, origin);
    ResidualsExpand(xs, v, a, b);
    ResidualsExpand(xs, v, f.slope, f.intercept);
    SquaredLineExpands(xs, a - f.slope, b - f.intercept);
    ExcessAlgebra(|t| as real, Sum(xs), Sum(v), SumProducts(xs, xs), SumProducts(xs, v), f.slope, f.intercept,
                  a - f.slope, b - f.intercept);
  }

  lemma ExcessAlgebra(n: real, sx: real, sy: real, sxx: real, sxy: real, a: real, b: real, da: real, db: real)
    requires a * sx + n * b == sy && a * sxx + b * sx == sxy
    ensures var a', b' := a + da, b + db;
      -2.0 * a' * sxy - 2.0 * b' * sy + (a' * a' * sxx + 2.0 * a' * b' * sx + n * (b' * b'))
      == -2.0 * a * sxy - 2.0 * b * sy + (a * a * sxx + 2.0 * a * b * sx + n * (b * b))
         + (da * da * sxx + 2.0 * da * db * sx + n * (db * db))
  {
    assert da * (a * sxx + b * sx) == da * sxy;
    assert db * (a * sx + n * b) == db * sy;
  }

  /** Least squares: whenever two timestamps differ, the returned line has the smallest sum of
      squared residuals of all lines, and no other line attains it. */
  lemma FitIsOptimal(t: seq<real>, v: seq<real>, origin: real, a: real, b: real)
    requires |t| == |v| >= 2
    ensures FitOf(t, v, origin).Line? <==> TwoDiffer(t)
    ensures FitOf(t, v, origin).Line? ==>
              var f := FitOf(t, v, origin);
              var xs := Shifted(t, origin);
              && Residuals(xs, v, f.slope, f.intercept) <= Residuals(xs, v, a, b)
              && (Residuals(xs, v, a, b) == Residuals(xs, v, f.slope, f.intercept) <==>
                  a == f.slope && b == f.intercept)
  {
    hide Residuals, SquaredLine, FitOf;
    var xs := Shifted(t, origin);
    LineIffTwoDiffer(t, v, origin);
    if FitOf(t, v, origin).Line? {
      var f := FitOf(t, v, origin);
      ExcessIsSquaredDifference(t, v, origin, a, b);
      SquaredLineSign(xs, a - f.slope, b - f.intercept);
      ShiftKeepsDifferences(t, origin);
      var i, j :| 0 <= i < |xs| && 0 <= j < |xs| && xs[i] != xs[j];
      OnlyZeroLine(a - f.slope, b - f.intercept, xs[i], xs[j]);
    }
  }

  /** No line for fewer than two readings, or for readings all at one timestamp; these are told apart. */
  lemma NoLine(t: seq<real>, v: seq<real>, origin: real)
    requires |t| == |v|
    ensures FitOf(t, v, origin).TooFew? <==> |t| < 2
    ensures FitOf(t, v, origin).DividesByZero? <==>
            |t| >= 2 && forall i, j :: 0 <= i < |t| && 0 <= j < |t| ==> t[i] == t[j]
  {
    hide VarX, Sum, SumProducts;
    if |t| >= 2 {
      LineIffTwoDiffer(t, v, origin);
    }
  }

  lemma LineIffTwoDiffer(t: seq<real>, v: seq<real>, origin: real)
    requires |t| == |v| >= 2
    ensures FitOf(t, v, origin).Line? <==> TwoDiffer(t)
  {
    hide Sum, SumProducts;
    VarXIsPositiveIffTwoDiffer(Shifted(t, origin));
    ShiftKeepsDifferences(t, origin);
  }

  /** A line with two zeros is zero. */
  lemma OnlyZeroLine(a: real, b: real, x: real, y: real)
    requires x != y
    ensures IsZero(a, b, x) && IsZero(a, b, y) <==> a == 0.0 && b == 0.0
  {
    if IsZero(a, b, x) && IsZero(a, b, y) {
      assert a * (x - y) == 0.0;
    }
  }

  lemma ShiftKeepsDifferences(t: seq<real>, origin: real)
    ensures TwoDiffer(Shifted(t, origin)) <==> TwoDiffer(t)
  {
    var xs := Shifted(t, origin);
    if TwoDiffer(xs) {
      var i, j :| 0 <= i < |xs| && 0 <= j < |xs| && xs[i] != xs[j];
      assert t[i] != t[j];
    }
    if TwoDiffer(t) {
      var i, j :| 0 <= i < |t| && 0 <= j < |t| && t[i] != t[j];
      assert xs[i] != xs[j];
    }
  }

  // ---- the origin ----

  /** The lines `a`, `b` at origin `p` and `a`, `c` at origin `o` are the same line. */
  predicate SameLine(a: real, o: real, c: real, p: real, b: real) {
    c == b - a * (p - o)
  }

  lemma {:induction false} ResidualsShift(t: seq<real>, v: seq<real>, o: real, p: real, a: real, b: real, c: real)
    requires |t| == |v| && SameLine(a, o, c, p, b)
    ensures Residuals(Shifted(t, p), v, a, b) == Residuals(Shifted(t, o), v, a, c)
  {
    hide Residuals, SameLine, Product;
    var xo, xp := Shifted(t, o), Shifted(t, p);
    if t == [] {
      assert xp == xo == v == [];
      EmptySums(a, b);
      EmptySums(a, c);
    } else {
      var n := |t| - 1;
      ResidualsShift(t[..n], v[..n], o, p, a, b, c);
      assert xp[..n] == Shifted(t[..n], p) && xo[..n] == Shifted(t[..n], o);
      assert xp[..n + 1] == xp && xo[..n + 1] == xo && v[..n + 1] == v;
      ResidualsOneMore(xp, v, n, a, b);
      ResidualsOneMore(xo, v, n, a, c);
      SamePoint(a, b, c, xp[n], xo[n], o, p);
      assert v[n] - (a * xp[n] + b) == v[n] - (a * xo[n] + c);
    }
  }

  lemma SamePoint(a: real, b: real, c: real, x: real, x': real, o: real, p: real)
    requires SameLine(a, o, c, p, b) && x' - x == p - o
    ensures a * x + b == a * x' + c
  {
    assert a * x' - a * x == a * (p - o);
  }

  /** The value of a line of slope `a` at a distance from where it is `c`. */
  function Moved(c: real, a: real, distance: real): real {
    c + a * distance
  }

  lemma LinesMove(a: real, o: real, c: real, p: real)
    ensures SameLine(a, o, c, p, Moved(c, a, p - o))
  {
  }

  /** The slope does not depend on the origin, and the intercept, being the value at the origin,
      moves by slope times the shift. */
  lemma OriginOnlyMovesTheIntercept(t: seq<real>, v: seq<real>, o: real, p: real)
    requires |t| == |v| && FitOf(t, v, o).Line?
    ensures FitOf(t, v, p).Line?
    ensures FitOf(t, v, p).slope == FitOf(t, v, o).slope
    ensures FitOf(t, v, p).intercept == Moved(FitOf(t, v, o).intercept, FitOf(t, v, o).slope, p - o)
  {
    assert |t| >= 2;
    hide Residuals, FitOf, SameLine, Moved;
    LineIffTwoDiffer(t, v, o);
    LineIffTwoDiffer(t, v, p);
    var f, g := FitOf(t, v, o), FitOf(t, v, p);
    var b, c := Moved(f.intercept, f.slope, p - o), Moved(g.intercept, g.slope, o - p);
    LinesMove(f.slope, o, f.intercept, p);
    LinesMove(g.slope, p, g.intercept, o);
    LinesMoveBack(g.slope, o, c, p, g.intercept);
    MovedFitIsTheFit(t, v, o, p, b, c);
  }

  lemma MovedFitIsTheFit(t: seq<real>, v: seq<real>, o: real, p: real, b: real, c: real)
    requires |t| == |v| && FitOf(t, v, o).Line? && FitOf(t, v, p).Line?
    requires SameLine(FitOf(t, v, o).slope, o, FitOf(t, v, o).intercept, p, b)
    requires SameLine(FitOf(t, v, p).slope, o, c, p, FitOf(t, v, p).intercept)
    ensures FitOf(t, v, p).slope == FitOf(t, v, o).slope && FitOf(t, v, p).intercept == b
  {
    hide Residuals, FitOf, SameLine;
    var f, g := FitOf(t, v, o), FitOf(t, v, p);
    ResidualsShift(t, v, o, p, f.slope, b, f.intercept);
    ResidualsShift(t, v, o, p, g.slope, g.intercept, c);
    FitIsMinimal(t, v, o, g.slope, c);
    FitIsTheOnlyMinimum(t, v, p, f.slope, b);
  }

  lemma FitIsMinimal(t: seq<real>, v: seq<real>, origin: real, a: real, b: real)
    requires |t| == |v| && FitOf(t, v, origin).Line?
    ensures Residuals(Shifted(t, origin), v, FitOf(t, v, origin).slope, FitOf(t, v, origin).intercept)
         <= Residuals(Shifted(t, origin), v, a, b)
  {
    assert |t| >= 2;
    FitIsOptimal(t, v, origin, a, b);
  }

  lemma FitIsTheOnlyMinimum(t: seq<real>, v: seq<real>, origin: real, a: real, b: real)
    requires |t| == |v| && FitOf(t, v, origin).Line?
    ensures Residuals(Shifted(t, origin), v, a, b)
              <= Residuals(Shifted(t, origin), v, FitOf(t, v, origin).slope, FitOf(t, v, origin).intercept)
            ==> a == FitOf(t, v, origin).slope && b == FitOf(t, v, origin).intercept
  {
    assert |t| >= 2;
    FitIsOptimal(t, v, origin, a, b);
  }

  lemma LinesMoveBack(a: real, o: real, c: real, p: real, b: real)
    ensures SameLine(a, o, c, p, b) <==> SameLine(a, p, b, o, c)
  {
  }
}

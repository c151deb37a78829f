/** fit(): the centred least-squares line of x4_loopback_latency.c, over the reals. */
module LeastSquares {
  import opened Words

  datatype Line = Line(a: real, b: real)

  function LinApply(f: Line, x: real): real {
    f.a * x + f.b
  }

  /** The four running sums of fit, over samples centred on a pivot. */
  datatype Sums = Sums(sx: real, sy: real, sxx: real, sxy: real)

  function Centred(x: seq<real>, y: seq<real>, x0: real, y0: real, n: nat): Sums
    requires n <= |x| == |y|
  {
    if n == 0 then Sums(0.0, 0.0, 0.0, 0.0)
    else
      var s := Centred(x, y, x0, y0, n - 1);
      var (dx, dy) := (x[n - 1] - x0, y[n - 1] - y0);
      Sums(s.sx + dx, s.sy + dy, s.sxx + dx * dx, s.sxy + dx * dy)
  }

  function Denominator(s: Sums, n: nat): real {
    n as real * s.sxx - s.sx * s.sx
  }

  function Slope(s: Sums, n: nat): real
    requires Denominator(s, n) != 0.0
  {
    (n as real * s.sxy - s.sx * s.sy) / Denominator(s, n)
  }

  /** The intercept in the centred frame. */
  function CentredIntercept(s: Sums, n: nat, a: real): real
    requires n > 0
  {
    (s.sy - a * s.sx) / n as real
  }

  function Uncentred(a: real, c: real, x0: real, y0: real): Line {
    Line(a, c + y0 - a * x0)
  }

  /** The last three statements of fit; None where the program divides by zero. */
  function LineOf(s: Sums, n: nat, x0: real, y0: real): Option<Line>
    requires n > 0
  {
    if Denominator(s, n) == 0.0 then None
    else
      var a := Slope(s, n);
      Some(Uncentred(a, CentredIntercept(s, n, a), x0, y0))
  }

  /** The line fit returns for a pivot. */
  function FitAt(x: seq<real>, y: seq<real>, x0: real, y0: real): Option<Line>
    requires |x| == |y| > 0
  {
    LineOf(Centred(x, y, x0, y0, |x|), |x|, x0, y0)
  }

  method CentredSums(x: array<real>, y: array<real>, n: nat) returns (s: Sums)
    requires 0 < n <= x.Length && n <= y.Length
    ensures s == Centred(x[..n], y[..n], x[0], y[0], n)
  {
    ghost var (xs, ys) := (x[..n], y[..n]);
    var x0, y0 := x[0], y[0];
    var sx, sy, sxx, sxy := 0.0, 0.0, 0.0, 0.0;
    var i := 0;
    while i < n
      invariant 0 <= i <= n
      invariant Sums(sx, sy, sxx, sxy) == Centred(xs, ys, x0, y0, i)
    {
      var dx, dy := x[i] - x0, y[i] - y0;
      CentredGrows(xs, ys, x0, y0, i + 1);
      sx, sy, sxx, sxy := sx + dx, sy + dy, sxx + dx * dx, sxy + dx * dy;
      i := i + 1;
    }
    s := Sums(sx, sy, sxx, sxy);
  }

  /** fit, centred on the first sample. */
  method Fit(x: array<real>, y: array<real>, n: nat) returns (f: Option<Line>)
    requires 0 < n <= x.Length && n <= y.Length
    ensures f == FitAt(x[..n], y[..n], x[0], y[0])
  {
    var s := CentredSums(x, y, n);
    f := LineOf(s, n, x[0], y[0]);
  }

  // ---------------------------------------------------------------------------------------------
  // Dot products. A product of two numbers is named, so that proofs can move it as a whole.

  function Times(p: real, q: real): real {
    p * q
  }

  lemma Product(p: real, q: real)
    requires p >= 0.0 && q > 0.0
    ensures p * q >= 0.0
    ensures p * q == 0.0 ==> p == 0.0
  {
  }

  lemma Square(u: real)
    ensures u * u >= 0.0
    ensures u * u == 0.0 <==> u == 0.0
  {
    if u > 0.0 {
      Product(u, u);
    } else if u < 0.0 {
      Product(-u, -u);
      assert (-u) * (-u) == u * u;
    }
  }

  function Dot(p: seq<real>, q: seq<real>, n: nat): real
    requires n <= |p| && n <= |q|
  {
    if n == 0 then 0.0 else Dot(p, q, n - 1) + p[n - 1] * q[n - 1]
  }

  function Ones(n: nat): (r: seq<real>)
    ensures |r| == n
  {
    seq(n, _ => 1.0)
  }

  function Scale(a: real, u: seq<real>): (r: seq<real>)
    ensures |r| == |u|
  {
    seq(|u|, i requires 0 <= i < |u| => a * u[i])
  }

  function Minus(v: seq<real>, w: seq<real>): (r: seq<real>)
    requires |v| == |w|
    ensures |r| == |v|
  {
    seq(|v|, i requires 0 <= i < |v| => v[i] - w[i])
  }

  lemma ScaleTerm(a: real, u: real, p: real, d: real)
    ensures Times(a, d) + (a * u) * p == Times(a, d + u * p)
  {
    assert a * (d + u * p) == a * d + a * (u * p);
    assert (a * u) * p == a * (u * p);
  }

  lemma {:induction false} DotScale(a: real, u: seq<real>, p: seq<real>, n: nat)
    requires n <= |u| && n <= |p|
    ensures Dot(Scale(a, u), p, n) == Times(a, Dot(u, p, n))
  {
    if n > 0 {
      DotScale(a, u, p, n - 1);
      ScaleTerm(a, u[n - 1], p[n - 1], Dot(u, p, n - 1));
    }
  }

  lemma MinusTerm(v: real, w: real, p: real)
    ensures (v - w) * p == v * p - w * p
  {
  }

  lemma {:induction false} DotMinus(v: seq<real>, w: seq<real>, p: seq<real>, n: nat)
    requires |v| == |w| && n <= |v| && n <= |p|
    ensures Dot(Minus(v, w), p, n) == Dot(v, p, n) - Dot(w, p, n)
  {
    if n > 0 {
      DotMinus(v, w, p, n - 1);
      MinusTerm(v[n - 1], w[n - 1], p[n - 1]);
    }
  }

  lemma {:induction false} DotCommutes(p: seq<real>, q: seq<real>, n: nat)
    requires n <= |p| && n <= |q|
    ensures Dot(p, q, n) == Dot(q, p, n)
  {
    if n > 0 { DotCommutes(p, q, n - 1); }
  }

  lemma {:induction false} DotOnes(m: nat, n: nat)
    requires n <= m
    ensures Dot(Ones(m), Ones(m), n) == n as real
  {
    if n > 0 { DotOnes(m, n - 1); }
  }

  lemma DotOfDifference(e: seq<real>, t: seq<real>, n: nat)
    requires |e| == |t| && n <= |e|
    ensures Dot(Minus(e, t), Minus(e, t), n) == Dot(e, e, n) - 2.0 * Dot(e, t, n) + Dot(t, t, n)
  {
    var w := Minus(e, t);
    DotMinus(e, t, w, n);
    DotCommutes(e, w, n);
    DotCommutes(t, w, n);
    DotMinus(e, t, e, n);
    DotMinus(e, t, t, n);
    DotCommutes(e, t, n);
  }

  lemma {:induction false} DotSquares(p: seq<real>, n: nat)
    requires n <= |p|
    ensures Dot(p, p, n) >= 0.0
    ensures Dot(p, p, n) == 0.0 <==> forall i :: 0 <= i < n ==> p[i] == 0.0
  {
    if n > 0 {
      DotSquares(p, n - 1);
      Square(p[n - 1]);
      assert Dot(p, p, n) == 0.0 <==> Dot(p, p, n - 1) == 0.0 && p[n - 1] == 0.0;
    }
  }

  function Centre(x: seq<real>, x0: real): (r: seq<real>)
    ensures |r| == |x|
  {
    seq(|x|, i requires 0 <= i < |x| => x[i] - x0)
  }

  lemma {:induction false} CentredSumsAreDots(x: seq<real>, y: seq<real>, x0: real, y0: real, n: nat)
    requires n <= |x| == |y|
    ensures Centred(x, y, x0, y0, n).sx == Dot(Centre(x, x0), Ones(|x|), n)
    ensures Centred(x, y, x0, y0, n).sy == Dot(Centre(y, y0), Ones(|x|), n)
  {
    if n > 0 { CentredSumsAreDots(x, y, x0, y0, n - 1); }
  }

  lemma {:induction false} CentredSquaresAreDots(x: seq<real>, y: seq<real>, x0: real, y0: real, n: nat)
    requires n <= |x| == |y|
    ensures Centred(x, y, x0, y0, n).sxx == Dot(Centre(x, x0), Centre(x, x0), n)
  {
    if n > 0 { CentredSquaresAreDots(x, y, x0, y0, n - 1); }
  }

  lemma {:induction false} CentredProductsAreDots(x: seq<real>, y: seq<real>, x0: real, y0: real, n: nat)
    requires n <= |x| == |y|
    ensures Centred(x, y, x0, y0, n).sxy == Dot(Centre(y, y0), Centre(x, x0), n)
  {
    if n > 0 { CentredProductsAreDots(x, y, x0, y0, n - 1); }
  }

  /** The running sums are dot products. */
  lemma CentredIsDots(x: seq<real>, y: seq<real>, x0: real, y0: real, n: nat)
    requires n <= |x| == |y|
    ensures var (u, v, one) := (Centre(x, x0), Centre(y, y0), Ones(|x|));
      Centred(x, y, x0, y0, n) == Sums(Dot(u, one, n), Dot(v, one, n), Dot(u, u, n), Dot(v, u, n))
  {
    CentredSumsAreDots(x, y, x0, y0, n);
    CentredSquaresAreDots(x, y, x0, y0, n);
    CentredProductsAreDots(x, y, x0, y0, n);
  }

  // ---------------------------------------------------------------------------------------------
  // The denominator.

  /** Sum over i < n of the squared distances to a point. */
  function SpreadFrom(x: seq<real>, p: real, n: nat): real
    requires n <= |x|
  {
    Dot(Centre(x, p), Centre(x, p), n)
  }

  /** Sum over i < j < n of (x_i - x_j)^2. */
  function PairSpread(x: seq<real>, n: nat): real
    requires n <= |x|
  {
    if n == 0 then 0.0 else PairSpread(x, n - 1) + SpreadFrom(x, x[n - 1], n - 1)
  }

  /** The squared distances to a point d away from the pivot, from the running sums. */
  function SpreadAt(s: Sums, d: real, n: nat): real {
    s.sxx - 2.0 * Times(d, s.sx) + Times(d, Times(d, n as real))
  }

  lemma SpreadExpands(x: seq<real>, y: seq<real>, x0: real, y0: real, p: real, n: nat)
    requires n <= |x| == |y|
    ensures SpreadFrom(x, p, n) == SpreadAt(Centred(x, y, x0, y0, n), p - x0, n)
  {
    var (d, u, one) := (p - x0, Centre(x, x0), Ones(|x|));
    var w := Scale(d, one);
    CentredIsDots(x, y, x0, y0, n);
    assert Centre(x, p) == Minus(u, w);
    DotOfDifference(u, w, n);
    DotCommutes(u, w, n);
    DotScale(d, one, u, n);
    DotCommutes(one, u, n);
    DotScale(d, one, w, n);
    DotCommutes(one, w, n);
    DotScale(d, one, one, n);
    DotOnes(|x|, n);
  }

  /** The sums with one more centred sample. */
  function With(s: Sums, u: real, v: real): Sums {
    Sums(s.sx + u, s.sy + v, s.sxx + u * u, s.sxy + u * v)
  }

  lemma CentredGrows(x: seq<real>, y: seq<real>, x0: real, y0: real, n: nat)
    requires 0 < n <= |x| == |y|
    ensures Centred(x, y, x0, y0, n) == With(Centred(x, y, x0, y0, n - 1), x[n - 1] - x0, y[n - 1] - y0)
  {
  }

  lemma DenominatorGrows(s: Sums, u: real, v: real, n: nat)
    requires n > 0
    ensures Denominator(With(s, u, v), n) == Denominator(s, n - 1) + SpreadAt(s, u, n - 1)
  {
    var m := (n - 1) as real;
    assert (m + 1.0) * (s.sxx + u * u) == m * s.sxx + m * (u * u) + s.sxx + u * u;
    assert (s.sx + u) * (s.sx + u) == s.sx * s.sx + 2.0 * (u * s.sx) + u * u;
    assert u * (u * m) == m * (u * u);
  }

  /** n*sxx - sx^2 is the sum of the squared pairwise differences of x, whatever the pivot. */
  lemma {:induction false} DenominatorIsPairSpread(x: seq<real>, y: seq<real>, x0: real, y0: real, n: nat)
    requires n <= |x| == |y|
    ensures Denominator(Centred(x, y, x0, y0, n), n) == PairSpread(x, n)
  {
    if n > 0 {
      DenominatorIsPairSpread(x, y, x0, y0, n - 1);
      CentredGrows(x, y, x0, y0, n);
      SpreadExpands(x, y, x0, y0, x[n - 1], n - 1);
      DenominatorGrows(Centred(x, y, x0, y0, n - 1), x[n - 1] - x0, y[n - 1] - y0, n);
    }
  }

  lemma {:induction false} PairSpreadSign(x: seq<real>, n: nat)
    requires n <= |x|
    ensures PairSpread(x, n) >= 0.0
    ensures PairSpread(x, n) == 0.0 <==> forall i, j :: 0 <= i < n && 0 <= j < n ==> x[i] == x[j]
  {
    if n > 0 {
      PairSpreadSign(x, n - 1);
      var c := Centre(x, x[n - 1]);
      DotSquares(c, n - 1);
      assert forall i :: 0 <= i < n - 1 ==> (c[i] == 0.0 <==> x[i] == x[n - 1]);
      assert SpreadFrom(x, x[n - 1], n - 1) == 0.0 <==> forall i :: 0 <= i < n - 1 ==> x[i] == x[n - 1];
    }
  }

  /** The denominator is positive, and the fit exists, exactly when the x values are not all equal. */
  lemma FitExistsIff(x: seq<real>, y: seq<real>, x0: real, y0: real)
    requires |x| == |y| > 0
    ensures Denominator(Centred(x, y, x0, y0, |x|), |x|) >= 0.0
    ensures FitAt(x, y, x0, y0).Some? <==> exists i, j :: 0 <= i < |x| && 0 <= j < |x| && x[i] != x[j]
  {
    DenominatorIsPairSpread(x, y, x0, y0, |x|);
    PairSpreadSign(x, |x|);
  }

  // ---------------------------------------------------------------------------------------------
  // Optimality.

  function SquaredError(f: Line, x: real, y: real): real {
    (y - LinApply(f, x)) * (y - LinApply(f, x))
  }

  /** The sum of squared residuals of a line over the first n samples. */
  function Residual(x: seq<real>, y: seq<real>, f: Line, n: nat): real
    requires n <= |x| == |y|
  {
    if n == 0 then 0.0 else Residual(x, y, f, n - 1) + SquaredError(f, x[n - 1], y[n - 1])
  }

  function SumOfSquares(y: seq<real>, y0: real, n: nat): real
    requires n <= |y|
  {
    if n == 0 then 0.0 else SumOfSquares(y, y0, n - 1) + Times(y[n - 1] - y0, y[n - 1] - y0)
  }

  /** A line's residual as a quadratic in its slope a and centred intercept c. */
  function Quadratic(s: Sums, syy: real, a: real, c: real, n: nat): real {
    Expanded(s.sx, s.sy, s.sxx, s.sxy, syy, a, c, n as real)
  }

  function Expanded(sx: real, sy: real, sxx: real, sxy: real, syy: real, a: real, c: real, n: real): real {
    syy - 2.0 * (a * sxy) - 2.0 * (c * sy) + a * (a * sxx) + 2.0 * (a * (c * sx)) + c * (c * n)
  }

  lemma CentredError(f: Line, x: real, y: real, x0: real, y0: real, c: real)
    requires f.b == c + y0 - f.a * x0
    ensures y - LinApply(f, x) == (y - y0) - f.a * (x - x0) - c
  {
    assert f.a * (x - x0) == f.a * x - f.a * x0;
  }

  /** The square of v - a*u - c, multiplied out. */
  function ErrorTerms(u: real, v: real, a: real, c: real): real {
    v * v - 2.0 * (a * (u * v)) - 2.0 * (c * v) + a * (a * (u * u)) + 2.0 * (a * (c * u)) + c * c
  }

  lemma SquareExpands(u: real, v: real, a: real, c: real)
    ensures Times(v - a * u - c, v - a * u - c) == ErrorTerms(u, v, a, c)
  {
  }

  lemma QuadraticGrows(s: Sums, syy: real, f: Line, x: real, y: real, x0: real, y0: real, a: real, c: real, n: nat)
    requires n > 0 && a == f.a && f.b == c + y0 - f.a * x0
    ensures Quadratic(With(s, x - x0, y - y0), syy + Times(y - y0, y - y0), a, c, n)
         == Quadratic(s, syy, a, c, n - 1) + SquaredError(f, x, y)
  {
    ErrorExpands(f, x, y, x0, y0, c);
    QuadraticStep(s, syy, x - x0, y - y0, a, c, n);
  }

  lemma ErrorExpands(f: Line, x: real, y: real, x0: real, y0: real, c: real)
    requires f.b == c + y0 - f.a * x0
    ensures SquaredError(f, x, y) == ErrorTerms(x - x0, y - y0, f.a, c)
  {
    CentredError(f, x, y, x0, y0, c);
    SquareExpands(x - x0, y - y0, f.a, c);
    assert SquaredError(f, x, y) == Times(y - LinApply(f, x), y - LinApply(f, x));
  }

  lemma QuadraticStep(s: Sums, syy: real, u: real, v: real, a: real, c: real, n: nat)
    requires n > 0
    ensures Quadratic(With(s, u, v), syy + Times(v, v), a, c, n)
         == Quadratic(s, syy, a, c, n - 1) + ErrorTerms(u, v, a, c)
  {
    ExpandedStep(s.sx, s.sy, s.sxx, s.sxy, syy, u, v, a, c, (n - 1) as real);
    assert (n - 1) as real + 1.0 == n as real;
  }

  lemma ExpandedStep(sx: real, sy: real, sxx: real, sxy: real, syy: real, u: real, v: real, a: real, c: real, m: real)
    ensures Expanded(sx + u, sy + v, sxx + u * u, sxy + u * v, syy + Times(v, v), a, c, m + 1.0)
         == Expanded(sx, sy, sxx, sxy, syy, a, c, m) + ErrorTerms(u, v, a, c)
  {
  }

  lemma {:induction false} ResidualIsQuadratic(x: seq<real>, y: seq<real>, x0: real, y0: real, f: Line, c: real, n: nat)
    requires n <= |x| == |y| && f.b == c + y0 - f.a * x0
    ensures Residual(x, y, f, n) == Quadratic(Centred(x, y, x0, y0, n), SumOfSquares(y, y0, n), f.a, c, n)
  {
    if n > 0 {
      ResidualIsQuadratic(x, y, x0, y0, f, c, n - 1);
      CentredGrows(x, y, x0, y0, n);
      QuadraticGrows(Centred(x, y, x0, y0, n - 1), SumOfSquares(y, y0, n - 1), f, x[n - 1], y[n - 1], x0, y0, f.a, c, n);
    }
  }

  /** What the slope and centred intercept of the least-squares line satisfy. */
  ghost predicate Normal(s: Sums, a: real, c: real, n: nat) {
    s.sy - a * s.sx - c * n as real == 0.0 && s.sxy - a * s.sxx - c * s.sx == 0.0
  }

  lemma NormalEquations(s: Sums, n: nat)
    requires n > 0 && Denominator(s, n) != 0.0
    ensures Normal(s, Slope(s, n), CentredIntercept(s, n, Slope(s, n)), n)
  {
    var m, d, a := n as real, Denominator(s, n), Slope(s, n);
    var c := CentredIntercept(s, n, a);
    assert a * d == m * s.sxy - s.sx * s.sy;
    assert c * m == s.sy - a * s.sx;
    assert a * d == a * (m * s.sxx) - a * (s.sx * s.sx);
    var r := s.sxy - a * s.sxx - c * s.sx;
    assert m * r == m * s.sxy - m * (a * s.sxx) - m * (c * s.sx);
    assert m * (c * s.sx) == (s.sy - a * s.sx) * s.sx;
    assert (s.sy - a * s.sx) * s.sx == s.sy * s.sx - a * (s.sx * s.sx);
    assert m * (a * s.sxx) == a * (m * s.sxx);
    assert m * r == 0.0;
    assert r == 0.0;
  }

  function Form(s: Sums, da: real, dc: real, n: nat): real {
    da * (da * s.sxx) + 2.0 * (da * (dc * s.sx)) + dc * (dc * n as real)
  }

  /** The quadratic form is, up to the factor n, a square plus the denominator times a square. */
  lemma FormIsNonNegative(s: Sums, n: nat, da: real, dc: real)
    requires n > 0 && Denominator(s, n) > 0.0
    ensures Form(s, da, dc, n) >= 0.0
    ensures Form(s, da, dc, n) == 0.0 ==> da == 0.0 && dc == 0.0
  {
    var m, d, form := n as real, Denominator(s, n), Form(s, da, dc, n);
    var r := m * dc + da * s.sx;
    assert r * r == m * m * (dc * dc) + 2.0 * (m * (da * (dc * s.sx))) + da * da * (s.sx * s.sx);
    assert da * da * d == da * da * (m * s.sxx) - da * da * (s.sx * s.sx);
    assert m * form == m * (da * (da * s.sxx)) + 2.0 * (m * (da * (dc * s.sx))) + m * (dc * (dc * m));
    assert m * form == r * r + da * da * d;
    Square(r);
    Square(da);
    Product(da * da, d);
    assert form >= 0.0 by {
      if form < 0.0 { Product(-form, m); }
    }
    if form == 0.0 {
      assert da == 0.0 && r == 0.0;
      Square(dc);
      assert m * dc == 0.0;
    }
  }

  /** Around the solution of the normal equations the quadratic is its value there plus the form. */
  lemma QuadraticAround(s: Sums, syy: real, a: real, c: real, da: real, dc: real, n: nat)
    requires Normal(s, a, c, n)
    ensures Quadratic(s, syy, a + da, c + dc, n) == Quadratic(s, syy, a, c, n) + Form(s, da, dc, n)
  {
    var m := n as real;
    assert (a + da) * s.sxy == a * s.sxy + da * s.sxy;
    assert (c + dc) * s.sy == c * s.sy + dc * s.sy;
    assert (a + da) * ((a + da) * s.sxx) == a * (a * s.sxx) + 2.0 * (da * (a * s.sxx)) + da * (da * s.sxx);
    assert (a + da) * ((c + dc) * s.sx)
        == a * (c * s.sx) + da * (c * s.sx) + dc * (a * s.sx) + da * (dc * s.sx);
    assert (c + dc) * ((c + dc) * m) == c * (c * m) + 2.0 * (dc * (c * m)) + dc * (dc * m);
    assert da * s.sxy == da * (a * s.sxx) + da * (c * s.sx);
    assert dc * s.sy == dc * (a * s.sx) + dc * (c * m);
  }

  /** The least value of the quadratic. */
  function Least(s: Sums, syy: real, n: nat): real
    requires n > 0 && Denominator(s, n) != 0.0
  {
    Quadratic(s, syy, Slope(s, n), CentredIntercept(s, n, Slope(s, n)), n)
  }

  lemma LeastIsLeast(s: Sums, syy: real, n: nat, a: real, c: real)
    requires n > 0 && Denominator(s, n) > 0.0
    ensures Least(s, syy, n) <= Quadratic(s, syy, a, c, n)
    ensures Least(s, syy, n) == Quadratic(s, syy, a, c, n) <==>
      a == Slope(s, n) && c == CentredIntercept(s, n, Slope(s, n))
  {
    var a0 := Slope(s, n);
    var c0 := CentredIntercept(s, n, a0);
    NormalEquations(s, n);
    QuadraticAround(s, syy, a0, c0, a - a0, c - c0, n);
    FormIsNonNegative(s, n, a - a0, c - c0);
  }

  /** The centred intercept of any line. */
  function CentredOf(g: Line, x0: real, y0: real): real {
    g.b - y0 + g.a * x0
  }

  lemma UncentredIff(a: real, c: real, x0: real, y0: real, g: Line)
    ensures Uncentred(a, c, x0, y0) == g <==> g.a == a && CentredOf(g, x0, y0) == c
  {
    if g.a == a {
      assert g.a * x0 == a * x0;
    }
  }

  /** The fitted line is the only one whose residual is the least value, and no residual is less. */
  lemma ResidualAgainstLeast(x: seq<real>, y: seq<real>, x0: real, y0: real, g: Line)
    requires |x| == |y| > 0 && FitAt(x, y, x0, y0).Some?
    ensures var least := Least(Centred(x, y, x0, y0, |x|), SumOfSquares(y, y0, |x|), |x|);
      && least <= Residual(x, y, g, |x|)
      && (least == Residual(x, y, g, |x|) <==> FitAt(x, y, x0, y0) == Some(g))
  {
    var s, syy, n := Centred(x, y, x0, y0, |x|), SumOfSquares(y, y0, |x|), |x|;
    FitExistsIff(x, y, x0, y0);
    ResidualIsQuadratic(x, y, x0, y0, g, CentredOf(g, x0, y0), n);
    LeastIsLeast(s, syy, n, g.a, CentredOf(g, x0, y0));
    UncentredIff(Slope(s, n), CentredIntercept(s, n, Slope(s, n)), x0, y0, g);
  }

  /** Least squares: no line has a smaller sum of squared residuals than the fitted one, and only the
      fitted one attains it. */
  lemma FitIsTheOptimum(x: seq<real>, y: seq<real>, x0: real, y0: real, g: Line)
    requires |x| == |y| > 0 && FitAt(x, y, x0, y0).Some?
    ensures var f := FitAt(x, y, x0, y0).value;
      && Residual(x, y, f, |x|) <= Residual(x, y, g, |x|)
      && (Residual(x, y, f, |x|) == Residual(x, y, g, |x|) <==> g == f)
  {
    ResidualAgainstLeast(x, y, x0, y0, FitAt(x, y, x0, y0).value);
    ResidualAgainstLeast(x, y, x0, y0, g);
  }

  /** The result does not depend on the pivot: centring is only for precision. */
  lemma PivotIndependent(x: seq<real>, y: seq<real>, x0: real, y0: real, x1: real, y1: real)
    requires |x| == |y| > 0
    ensures FitAt(x, y, x0, y0) == FitAt(x, y, x1, y1)
  {
    FitExistsIff(x, y, x0, y0);
    FitExistsIff(x, y, x1, y1);
    if FitAt(x, y, x0, y0).Some? {
      FitIsTheOptimum(x, y, x0, y0, FitAt(x, y, x1, y1).value);
      FitIsTheOptimum(x, y, x1, y1, FitAt(x, y, x0, y0).value);
    }
  }

  lemma {:induction false} ResidualSign(x: seq<real>, y: seq<real>, f: Line, n: nat)
    requires n <= |x| == |y|
    ensures Residual(x, y, f, n) >= 0.0
    ensures Residual(x, y, f, n) == 0.0 <==> forall i :: 0 <= i < n ==> y[i] == LinApply(f, x[i])
  {
    if n > 0 {
      ResidualSign(x, y, f, n - 1);
      Square(y[n - 1] - LinApply(f, x[n - 1]));
      assert Residual(x, y, f, n) == 0.0 <==> Residual(x, y, f, n - 1) == 0.0 && y[n - 1] == LinApply(f, x[n - 1]);
    }
  }

  /** Samples on a line give back that line, and only they are fitted without residual. */
  lemma CollinearRecovered(x: seq<real>, y: seq<real>, x0: real, y0: real, g: Line)
    requires |x| == |y| > 0 && FitAt(x, y, x0, y0).Some?
    ensures (forall i :: 0 <= i < |x| ==> y[i] == LinApply(g, x[i]))
       <==> FitAt(x, y, x0, y0) == Some(g) && Residual(x, y, g, |x|) == 0.0
  {
    ResidualSign(x, y, g, |x|);
    ResidualSign(x, y, FitAt(x, y, x0, y0).value, |x|);
    FitIsTheOptimum(x, y, x0, y0, g);
  }

  // ---------------------------------------------------------------------------------------------
  // The clock map.

  /** phc_to_tscns: invert both fits, then ticks to nanoseconds. */
  function PhcToTscNs(tsc2rt: Line, rt2phc: Line, phcNs: real, tscHz: real): real
    requires rt2phc.a != 0.0 && tsc2rt.a != 0.0 && tscHz != 0.0
  {
    var rt := (phcNs - rt2phc.b) / rt2phc.a;
    var tsc := (rt - tsc2rt.b) / tsc2rt.a;
    tsc * 1000000000.0 / tscHz
  }

  /** It undoes the composition of the two fitted maps. */
  lemma ClockMapInverts(tsc2rt: Line, rt2phc: Line, ticks: real, tscHz: real)
    requires rt2phc.a != 0.0 && tsc2rt.a != 0.0 && tscHz != 0.0
    ensures PhcToTscNs(tsc2rt, rt2phc, LinApply(rt2phc, LinApply(tsc2rt, ticks)), tscHz) == ticks * 1000000000.0 / tscHz
  {
    var rt := LinApply(tsc2rt, ticks);
    assert (LinApply(rt2phc, rt) - rt2phc.b) / rt2phc.a == rt by {
      assert LinApply(rt2phc, rt) - rt2phc.b == rt2phc.a * rt;
    }
    assert (rt - tsc2rt.b) / tsc2rt.a == ticks by {
      assert rt - tsc2rt.b == tsc2rt.a * ticks;
    }
  }
}

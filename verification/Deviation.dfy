/** The standard deviation of stats_compute: squared distances from the mean of the u64 sum, and the
    square root of their average, truncated to whole cycles. */
module Deviation {
  import opened Words
  import opened Percentile
  import LeastSquares

  function Sq(x: real): real {
    x * x
  }

  /** The sum of squared distances from a centre. */
  function SquareSum(s: seq<u64>, centre: real): real {
    if |s| == 0 then 0.0 else SquareSum(s[..|s| - 1], centre) + Sq(s[|s| - 1] as real - centre)
  }

  function TrueMean(s: seq<u64>): real
    requires |s| > 0
  {
    SumOf(s) as real / |s| as real
  }

  /** mean_cyc, of the u64 sum. */
  function MeanCycles(s: seq<u64>): real
    requires |s| > 0
  {
    (SumOf(s) % 0x1_0000_0000_0000_0000) as real / |s| as real
  }

  // ---------------------------------------------------------------------------------------------
  // Moving the centre.

  /** The sum of signed distances from a centre. */
  function Offset(s: seq<u64>, centre: real): real {
    if |s| == 0 then 0.0 else Offset(s[..|s| - 1], centre) + (s[|s| - 1] as real - centre)
  }

  /** n squares. */
  function Times(n: nat, x: real): real {
    n as real * Sq(x)
  }

  lemma TimesGrows(n: nat, x: real)
    ensures Times(n + 1, x) == Times(n, x) + Sq(x)
  {
  }

  function Mul(p: real, q: real): real {
    p * q
  }

  lemma Positive(p: real, q: real)
    requires p > 0.0 && q > 0.0
    ensures Mul(p, q) > 0.0
  {
  }

  lemma ZeroFactor(p: real, q: real)
    requires p == 0.0 || q == 0.0
    ensures Mul(p, q) == 0.0
  {
  }

  lemma SqIsEven(x: real)
    ensures Sq(x) == Mul(-x, -x) == Mul(x, x)
  {
  }

  lemma SqSign(x: real)
    ensures x != 0.0 ==> Sq(x) > 0.0
    ensures x == 0.0 ==> Sq(x) == 0.0
  {
    SqIsEven(x);
    if x > 0.0 {
      Positive(x, x);
    } else if x < 0.0 {
      Positive(-x, -x);
    } else {
      ZeroFactor(x, x);
    }
  }

  lemma TimesSign(n: nat, x: real)
    requires n > 0
    ensures x != 0.0 ==> Times(n, x) > 0.0
    ensures x == 0.0 ==> Times(n, x) == 0.0
  {
    SqSign(x);
    assert Times(n, x) == Mul(n as real, Sq(x));
    if x != 0.0 {
      Positive(n as real, Sq(x));
    } else {
      ZeroFactor(n as real, Sq(x));
    }
  }

  lemma SqMoves(x: real, a: real, b: real)
    ensures Sq(x - b) == Sq(x - a) + 2.0 * Mul(a - b, x - a) + Sq(a - b)
  {
  }

  lemma MulAdds(d: real, t: real, u: real)
    ensures Mul(d, t + u) == Mul(d, t) + Mul(d, u)
  {
  }

  lemma {:induction false} ShiftedSquares(s: seq<u64>, a: real, b: real)
    ensures SquareSum(s, b) == SquareSum(s, a) + 2.0 * Mul(a - b, Offset(s, a)) + Times(|s|, a - b)
  {
    if |s| == 0 {
      ZeroFactor(a - b, 0.0);
    } else {
      var front, x := s[..|s| - 1], s[|s| - 1] as real;
      ShiftedSquares(front, a, b);
      SqMoves(x, a, b);
      TimesGrows(|front|, a - b);
      MulAdds(a - b, Offset(front, a), x - a);
    }
  }

  lemma OneMoreReal(n: nat, t: real)
    ensures (n + 1) as real * t == n as real * t + t
  {
  }

  lemma {:induction false} OffsetIs(s: seq<u64>, a: real)
    ensures Offset(s, a) == SumOf(s) as real - |s| as real * a
  {
    if |s| > 0 {
      OffsetIs(s[..|s| - 1], a);
      OneMoreReal(|s| - 1, a);
    }
  }

  lemma TimesQuotient(n: real, t: real)
    requires n > 0.0
    ensures n * (t / n) == t
  {
  }

  lemma NoOffset(s: seq<u64>)
    requires |s| > 0
    ensures Offset(s, TrueMean(s)) == 0.0
  {
    OffsetIs(s, TrueMean(s));
    TimesQuotient(|s| as real, SumOf(s) as real);
  }

  /** The squares about any centre are those about the mean plus n times the squared distance. */
  lemma SquaresAboutMean(s: seq<u64>, mean: real, b: real)
    requires |s| > 0 && Offset(s, mean) == 0.0
    ensures SquareSum(s, b) == SquareSum(s, mean) + Times(|s|, mean - b)
  {
    ShiftedSquares(s, mean, b);
    ZeroFactor(mean - b, Offset(s, mean));
  }

  lemma SameQuotient(x: real, y: real, n: real)
    requires n > 0.0
    ensures x / n == y / n <==> x == y
    ensures x >= y ==> x / n >= y / n
  {
    TimesQuotient(n, x);
    TimesQuotient(n, y);
    if x >= y {
      QuotientNonNegative(x - y, n);
      assert (x - y) / n == x / n - y / n;
    }
  }

  /** Squares about the two means agree exactly when the means do. */
  lemma TwoMeans(s: seq<u64>, mean: real, reported: real)
    requires |s| > 0 && Offset(s, mean) == 0.0
    ensures SquareSum(s, reported) >= SquareSum(s, mean)
    ensures SquareSum(s, reported) == SquareSum(s, mean) <==> reported == mean
  {
    SquaresAboutMean(s, mean, reported);
    TimesSign(|s|, mean - reported);
  }

  lemma MeansAgreeIff(s: seq<u64>)
    requires |s| > 0
    ensures MeanCycles(s) == TrueMean(s) <==> SumOf(s) < 0x1_0000_0000_0000_0000
  {
    SameQuotient(SumOf(s) as real, (SumOf(s) % 0x1_0000_0000_0000_0000) as real, |s| as real);
  }

  /** The variance about a given mean. */
  function VarianceAbout(s: seq<u64>, mean: real): real
    requires |s| > 0
  {
    SquareSum(s, mean) / |s| as real
  }

  lemma TwoVariances(s: seq<u64>, mean: real, reported: real)
    requires |s| > 0 && Offset(s, mean) == 0.0
    ensures VarianceAbout(s, reported) >= VarianceAbout(s, mean)
    ensures VarianceAbout(s, reported) == VarianceAbout(s, mean) <==> reported == mean
  {
    TwoMeans(s, mean, reported);
    SameQuotient(SquareSum(s, reported), SquareSum(s, mean), |s| as real);
  }

  /** The variance is never under the true one, and is the true one exactly when the u64 sum does not wrap. */
  lemma {:induction false} VarianceIsExactIff(s: seq<u64>)
    requires |s| > 0
    ensures Variance(s) >= VarianceAbout(s, TrueMean(s))
    ensures Variance(s) == VarianceAbout(s, TrueMean(s)) <==> SumOf(s) < 0x1_0000_0000_0000_0000
  {
    NoOffset(s);
    TwoVariances(s, TrueMean(s), MeanCycles(s));
    MeansAgreeIff(s);
  }

  function Reals(s: seq<u64>): (x: seq<real>)
    ensures |x| == |s|
  {
    seq(|s|, i requires 0 <= i < |s| => s[i] as real)
  }

  lemma {:induction false} CentredIsOffset(s: seq<u64>, c: real, n: nat)
    requires n <= |s|
    ensures var sums := LeastSquares.Centred(Reals(s), Reals(s), c, c, n);
      sums.sx == Offset(s[..n], c) && sums.sxx == SquareSum(s[..n], c)
  {
    if n > 0 {
      CentredIsOffset(s, c, n - 1);
      assert s[..n][..n - 1] == s[..n - 1];
    }
  }

  lemma NoOffsetSquared(sums: LeastSquares.Sums, n: nat)
    requires sums.sx == 0.0
    ensures LeastSquares.Denominator(sums, n) == n as real * sums.sxx
  {
  }

  /** n times the squares about the centre are the squared differences of all pairs of samples. */
  predicate SquaresArePairs(s: seq<u64>, centre: real) {
    |s| as real * SquareSum(s, centre) == LeastSquares.PairSpread(Reals(s), |s|)
  }

  lemma {:induction false} SquaresArePairSpread(s: seq<u64>, mean: real)
    requires Offset(s, mean) == 0.0
    ensures SquaresArePairs(s, mean)
  {
    CentredIsOffset(s, mean, |s|);
    assert s[..|s|] == s;
    NoOffsetSquared(LeastSquares.Centred(Reals(s), Reals(s), mean, mean, |s|), |s|);
    LeastSquares.DenominatorIsPairSpread(Reals(s), Reals(s), mean, mean, |s|);
  }

  /** So they are about the true mean. */
  lemma {:induction false} VarianceIsPairSpread(s: seq<u64>)
    requires |s| > 0
    ensures SquaresArePairs(s, TrueMean(s))
  {
    NoOffset(s);
    SquaresArePairSpread(s, TrueMean(s));
  }

  // ---------------------------------------------------------------------------------------------
  // The truncated square root.

  function Variance(s: seq<u64>): real
    requires |s| > 0
  {
    VarianceAbout(s, MeanCycles(s))
  }

  function SqrtFrom(v: real, r: nat): (root: nat)
    requires Sq(r as real) <= v
    ensures Sq(root as real) <= v < Sq((root + 1) as real)
    decreases v.Floor - r
  {
    if v < Sq((r + 1) as real) then r
    else
      assert (r + 1) as real <= Sq((r + 1) as real);
      SqrtFrom(v, r + 1)
  }

  /** (uint64_t)sqrt(v). */
  function FloorSqrt(v: real): (root: nat)
    requires v >= 0.0
    ensures Sq(root as real) <= v < Sq((root + 1) as real)
  {
    SqrtFrom(v, 0)
  }

  lemma {:induction false} SquareSumNonNegative(s: seq<u64>, centre: real)
    ensures SquareSum(s, centre) >= 0.0
  {
    if |s| > 0 {
      SquareSumNonNegative(s[..|s| - 1], centre);
      SqSign(s[|s| - 1] as real - centre);
    }
  }

  /** stddev in cycles. */
  function StdCycles(s: seq<u64>): nat
    requires |s| > 0
  {
    SquareSumNonNegative(s, MeanCycles(s));
    QuotientNonNegative(SquareSum(s, MeanCycles(s)), |s| as real);
    FloorSqrt(Variance(s))
  }

  // ---------------------------------------------------------------------------------------------
  // At most half the spread.

  lemma SquareMonotone(x: real, y: real)
    requires -y <= x <= y
    ensures Sq(x) <= Sq(y)
  {
    NonNegative(y - x, y + x);
    assert (y - x) * (y + x) == Sq(y) - Sq(x);
  }

  predicate Within(s: seq<u64>, centre: real, h: real) {
    forall i :: 0 <= i < |s| ==> -h <= s[i] as real - centre <= h
  }

  lemma {:induction false} SquaresWithin(s: seq<u64>, centre: real, h: real)
    requires Within(s, centre, h)
    ensures SquareSum(s, centre) <= Times(|s|, h)
  {
    if |s| > 0 {
      SquaresWithin(s[..|s| - 1], centre, h);
      SquareMonotone(s[|s| - 1] as real - centre, h);
      TimesGrows(|s| - 1, h);
    }
  }

  lemma DifferenceOfSquares(x: real, y: real)
    ensures Sq(x) - Sq(y) == Mul(x - y, x + y)
  {
  }

  lemma RootAtMost(r: real, h: real)
    requires r >= 0.0 && h >= 0.0 && Sq(r) <= Sq(h)
    ensures r <= h
  {
    if r > h {
      DifferenceOfSquares(r, h);
      Positive(r - h, r + h);
    }
  }

  /** An average of squares at most h^2 has its root at most h. */
  lemma RootOfAverage(sum: real, n: nat, root: nat, h: real)
    requires n > 0 && h >= 0.0 && sum <= Times(n, h) && Sq(root as real) <= sum / n as real
    ensures root as real <= h
  {
    SameQuotient(Times(n, h), sum, n as real);
    assert Times(n, h) / n as real == Sq(h);
    RootAtMost(root as real, h);
  }

  lemma StdIsRoot(s: seq<u64>)
    requires |s| > 0
    ensures Sq(StdCycles(s) as real) <= Variance(s) < Sq((StdCycles(s) + 1) as real)
  {
  }

  lemma StdAtMost(s: seq<u64>, mean: real, h: real)
    requires |s| > 0 && mean == MeanCycles(s) && h >= 0.0 && SquareSum(s, mean) <= Times(|s|, h)
    ensures StdCycles(s) as real <= h
  {
    StdIsRoot(s);
    RootOfAverage(SquareSum(s, mean), |s|, StdCycles(s), h);
  }

  lemma {:induction false} SquaresWithinSpread(s: seq<u64>, mean: real, lo: u64, hi: u64)
    requires |s| > 0 && Bounds(s, lo, hi) && Offset(s, mean) == 0.0
    ensures SquareSum(s, mean) <= Times(|s|, (hi - lo) as real / 2.0)
  {
    var middle := (lo + hi) as real / 2.0;
    SquaresWithin(s, middle, (hi - lo) as real / 2.0);
    SquaresAboutMean(s, mean, middle);
    TimesSign(|s|, mean - middle);
  }

  /** While the sum fits in 64 bits the standard deviation is at most half the spread of the samples. */
  lemma {:induction false} StdWithinHalfSpread(s: seq<u64>, lo: u64, hi: u64)
    requires |s| > 0 && Bounds(s, lo, hi) && SumOf(s) < 0x1_0000_0000_0000_0000
    ensures 2 * StdCycles(s) <= hi - lo
  {
    assert lo <= s[0] <= hi;
    NoOffset(s);
    MeansAgreeIff(s);
    SquaresWithinSpread(s, MeanCycles(s), lo, hi);
    StdAtMost(s, MeanCycles(s), (hi - lo) as real / 2.0);
  }

  lemma MeanCyclesInRange(s: seq<u64>)
    requires |s| > 0
    ensures 0.0 <= MeanCycles(s) <= 0xffff_ffff_ffff_ffff as real
  {
    var (sum, n) := ((SumOf(s) % 0x1_0000_0000_0000_0000) as real, |s| as real);
    QuotientNonNegative(sum, n);
    NonNegative(n - 1.0, MeanCycles(s));
    TimesQuotient(n, sum);
  }

  /** Wrapped sum or not, the root fits in 64 bits. */
  lemma StdFits(s: seq<u64>)
    requires |s| > 0
    ensures StdCycles(s) < 0x1_0000_0000_0000_0000
  {
    var h := 0xffff_ffff_ffff_ffff as real;
    MeanCyclesInRange(s);
    SquaresWithin(s, MeanCycles(s), h);
    StdAtMost(s, MeanCycles(s), h);
  }

  /** When the sum wraps, the deviation of two equal samples can be as large as they are. */
  lemma StdCanWrap()
    ensures var s := [0x8000_0000_0000_0000, 0x8000_0000_0000_0000];
      SumOf(s) == 0x1_0000_0000_0000_0000 && StdCycles(s) == 0x8000_0000_0000_0000
  {
    var x: u64 := 0x8000_0000_0000_0000;
    var s := [x, x];
    assert s[..1] == [x] && s[..1][..0] == [];
    assert SumOf(s) == SumOf(s[..1]) + x == x + x;
    assert MeanCycles(s) == 0.0;
    assert SquareSum(s, 0.0) == SquareSum(s[..1], 0.0) + Sq(x as real) == 2.0 * Sq(x as real);
    assert Variance(s) == Sq(x as real);
    RootAtMost(StdCycles(s) as real, x as real);
    RootAtMost(x as real, (StdCycles(s) + 1) as real);
  }
}

/** stats_record and stats_compute: samples recorded into a fixed buffer, then sorted in place and
    summarised. Nanosecond values are reals here, where the program uses doubles. */
module Percentile {
  import opened Words

  const NS_PER_SECOND := 1000000000.0

  /** tsc_to_ns. */
  function ToNs(cycles: nat, hz: real): real
    requires hz > 0.0
  {
    cycles as real * NS_PER_SECOND / hz
  }

  lemma NonNegative(p: real, q: real)
    requires p >= 0.0 && q >= 0.0
    ensures p * q >= 0.0
  {
  }

  lemma QuotientNonNegative(p: real, q: real)
    requires p >= 0.0 && q > 0.0
    ensures p / q >= 0.0
  {
  }

  lemma ToNsDifference(x: nat, y: nat, hz: real)
    requires hz > 0.0 && x <= y
    ensures ToNs(y, hz) - ToNs(x, hz) == ToNs(y - x, hz) >= 0.0
    ensures ToNs(0, hz) == 0.0
  {
    assert (y - x) as real * NS_PER_SECOND == y as real * NS_PER_SECOND - x as real * NS_PER_SECOND;
    QuotientNonNegative((y - x) as real * NS_PER_SECOND, hz);
  }

  lemma ToNsMonotone(x: nat, y: nat, hz: real)
    requires hz > 0.0 && x <= y
    ensures ToNs(x, hz) <= ToNs(y, hz)
  {
    ToNsDifference(x, y, hz);
  }

  /** v nanoseconds are that many cycles of a counter of hz cycles a second. */
  predicate IsNs(v: real, cycles: real, hz: real) {
    v * hz == cycles * 1000000000.0
  }

  lemma ToNsIsNs(cycles: nat, hz: real)
    requires hz > 0.0
    ensures IsNs(ToNs(cycles, hz), cycles as real, hz)
  {
  }

  lemma IsNsAdds(v: real, c: real, w: real, d: real, hz: real)
    requires IsNs(v, c, hz) && IsNs(w, d, hz)
    ensures IsNs(v + w, c + d, hz)
  {
  }

  lemma IsNsUnique(v: real, c: real, d: real, hz: real)
    requires IsNs(v, c, hz)
    ensures IsNs(v, d, hz) <==> c == d
  {
  }


  predicate Sorted(s: seq<u64>) {
    forall i, j :: 0 <= i < j < |s| ==> s[i] <= s[j]
  }

  // ---------------------------------------------------------------------------------------------
  // _pct

  /** a*(1 - t) + b*t */
  function Blend(a: real, b: real, t: real): real {
    a * (1.0 - t) + b * t
  }

  /** The interpolated value at a real index 0 <= idx <= n - 1. */
  function ValueAt(s: seq<u64>, idx: real, hz: real): real
    requires hz > 0.0 && 0.0 <= idx && idx <= (|s| - 1) as real
  {
    var lo := idx.Floor;
    var hi := if lo + 1 < |s| then lo + 1 else lo;
    Blend(ToNs(s[lo], hz), ToNs(s[hi], hz), idx - lo as real)
  }

  /** p * (n - 1) */
  function Rank(p: real, n: nat): real {
    p * (n - 1) as real
  }

  lemma RankMonotone(p: real, q: real, n: nat)
    requires n > 0 && p <= q
    ensures Rank(p, n) <= Rank(q, n)
  {
    NonNegative(q - p, (n - 1) as real);
    assert (q - p) * (n - 1) as real == q * (n - 1) as real - p * (n - 1) as real;
  }

  lemma RankInRange(p: real, n: nat)
    requires n > 0 && 0.0 <= p <= 1.0
    ensures 0.0 <= Rank(p, n) <= (n - 1) as real
  {
    RankMonotone(0.0, p, n);
    RankMonotone(p, 1.0, n);
  }

  function Pct(s: seq<u64>, p: real, hz: real): real
    requires hz > 0.0 && |s| > 0 && 0.0 <= p <= 1.0
  {
    RankInRange(p, |s|);
    ValueAt(s, Rank(p, |s|), hz)
  }

  lemma BlendBetween(a: real, b: real, t: real)
    requires a <= b && 0.0 <= t <= 1.0
    ensures a <= Blend(a, b, t) <= b
  {
    assert Blend(a, b, t) == a + (b - a) * t;
    assert Blend(a, b, t) == b - (b - a) * (1.0 - t);
    NonNegative(b - a, t);
    NonNegative(b - a, 1.0 - t);
  }

  lemma BlendMonotone(a: real, b: real, t: real, t': real)
    requires a <= b && t <= t'
    ensures Blend(a, b, t) <= Blend(a, b, t')
  {
    assert Blend(a, b, t') - Blend(a, b, t) == (b - a) * (t' - t);
    NonNegative(b - a, t' - t);
  }

  /** The value at an index lies between the two samples around it. */
  lemma ValueBetween(s: seq<u64>, idx: real, hz: real)
    requires Sorted(s) && hz > 0.0 && 0.0 <= idx && idx <= (|s| - 1) as real
    ensures ToNs(s[idx.Floor], hz) <= ValueAt(s, idx, hz)
    ensures idx.Floor + 1 < |s| ==> ValueAt(s, idx, hz) <= ToNs(s[idx.Floor + 1], hz)
  {
    var lo := idx.Floor;
    var hi := if lo + 1 < |s| then lo + 1 else lo;
    ToNsMonotone(s[lo], s[hi], hz);
    BlendBetween(ToNs(s[lo], hz), ToNs(s[hi], hz), idx - lo as real);
  }

  lemma ValueMonotone(s: seq<u64>, i: real, j: real, hz: real)
    requires Sorted(s) && hz > 0.0 && 0.0 <= i <= j <= (|s| - 1) as real
    ensures ValueAt(s, i, hz) <= ValueAt(s, j, hz)
  {
    var lo := i.Floor;
    if lo == j.Floor {
      var hi := if lo + 1 < |s| then lo + 1 else lo;
      ToNsMonotone(s[lo], s[hi], hz);
      BlendMonotone(ToNs(s[lo], hz), ToNs(s[hi], hz), i - lo as real, j - lo as real);
    } else {
      ValueBetween(s, i, hz);
      ValueBetween(s, j, hz);
      ToNsMonotone(s[lo + 1], s[j.Floor], hz);
    }
  }

  /** _pct is monotone in p over a sorted array. */
  lemma PctMonotone(s: seq<u64>, p: real, q: real, hz: real)
    requires Sorted(s) && |s| > 0 && hz > 0.0 && 0.0 <= p <= q <= 1.0
    ensures Pct(s, p, hz) <= Pct(s, q, hz)
  {
    RankInRange(p, |s|);
    RankInRange(q, |s|);
    RankMonotone(p, q, |s|);
    ValueMonotone(s, Rank(p, |s|), Rank(q, |s|), hz);
  }

  lemma PctEnds(s: seq<u64>, hz: real)
    requires |s| > 0 && hz > 0.0
    ensures Pct(s, 0.0, hz) == ToNs(s[0], hz)
    ensures Pct(s, 1.0, hz) == ToNs(s[|s| - 1], hz)
  {
    var m := (|s| - 1) as real;
    assert 0.0 * m == 0.0 && 1.0 * m == m;
    assert m.Floor == |s| - 1;
  }

  /** The rank p * (n - 1) lies at t of the way from sample k to sample k + 1. */
  predicate RankAt(s: seq<u64>, p: real, k: nat, t: real) {
    k + 1 < |s| && 0.0 <= t <= 1.0 && p * (|s| - 1) as real == k as real + t
  }

  /** v, in nanoseconds, is that far from the one sample to the other. */
  predicate LiesAt(s: seq<u64>, k: nat, t: real, hz: real, v: real)
    requires k + 1 < |s|
  {
    IsNs(v, s[k] as real * (1.0 - t) + s[k + 1] as real * t, hz)
  }

  /** v is the interpolated p-quantile of the samples. */
  ghost predicate Interpolates(s: seq<u64>, p: real, hz: real, v: real)
    requires |s| > 0
  {
    && (|s| == 1 ==> IsNs(v, s[0] as real, hz))
    && forall k: nat, t: real :: RankAt(s, p, k, t) ==> LiesAt(s, k, t, hz, v)
  }

  lemma BlendIsNs(a: real, b: real, x: real, y: real, t: real, hz: real)
    requires IsNs(a, x, hz) && IsNs(b, y, hz)
    ensures IsNs(Blend(a, b, t), x * (1.0 - t) + y * t, hz)
  {
    assert Blend(a, b, t) * hz == (a * hz) * (1.0 - t) + (b * hz) * t;
  }

  lemma BlendEnds(a: real, b: real)
    ensures Blend(a, b, 0.0) == a && Blend(a, b, 1.0) == b
  {
  }

  lemma ValueInterpolates(s: seq<u64>, k: nat, t: real, hz: real)
    requires hz > 0.0 && k + 1 < |s| && 0.0 <= t <= 1.0
    ensures LiesAt(s, k, t, hz, ValueAt(s, k as real + t, hz))
  {
    var (a, b) := (ToNs(s[k], hz), ToNs(s[k + 1], hz));
    ToNsIsNs(s[k], hz);
    ToNsIsNs(s[k + 1], hz);
    BlendIsNs(a, b, s[k] as real, s[k + 1] as real, t, hz);
    var lo := (k as real + t).Floor;
    if t < 1.0 {
      assert lo == k;
      assert ValueAt(s, k as real + t, hz) == Blend(a, b, t);
    } else {
      assert lo == k + 1;
      BlendEnds(a, b);
      BlendEnds(b, ToNs(s[if k + 2 < |s| then k + 2 else k + 1], hz));
      assert ValueAt(s, k as real + t, hz) == b == Blend(a, b, t);
    }
  }

  /** _pct interpolates linearly between the two samples around the rank. */
  lemma PctInterpolates(s: seq<u64>, p: real, hz: real)
    requires |s| > 0 && hz > 0.0 && 0.0 <= p <= 1.0
    ensures Interpolates(s, p, hz, Pct(s, p, hz))
  {
    RankInRange(p, |s|);
    forall k: nat, t: real | RankAt(s, p, k, t)
      ensures LiesAt(s, k, t, hz, Pct(s, p, hz))
    {
      ValueInterpolates(s, k, t, hz);
    }
    if |s| == 1 {
      assert Rank(p, 1) == 0.0;
      BlendEnds(ToNs(s[0], hz), ToNs(s[0], hz));
      ToNsIsNs(s[0], hz);
    }
  }

  // ---------------------------------------------------------------------------------------------
  // Jitter and mean.

  /** (int64_t) of a u64. */
  function Signed(x: int): int {
    var w := x % 0x1_0000_0000_0000_0000;
    if w < 0x8000_0000_0000_0000 then w else w - 0x1_0000_0000_0000_0000
  }

  /** (uint64_t)(d < 0 ? -d : d) with d the int64 difference of the two samples. */
  function AbsDelta(x: u64, y: u64): u64 {
    var d := Signed(Signed(x) - Signed(y));
    if d < 0 then -d else d
  }

  function Distance(x: u64, y: u64): u64 {
    if x < y then y - x else x - y
  }

  lemma WholeTurns(v: int, k: int)
    requires -1 <= k <= 1
    ensures (v + k * 0x1_0000_0000_0000_0000) % 0x1_0000_0000_0000_0000 == v % 0x1_0000_0000_0000_0000
  {
  }

  lemma SignedDifference(x: u64, y: u64)
    ensures Signed(Signed(x) - Signed(y)) == Signed(x - y)
  {
    var (a, b) := (if x < 0x8000_0000_0000_0000 then 0 else 1, if y < 0x8000_0000_0000_0000 then 0 else 1);
    assert Signed(x) == x - a * 0x1_0000_0000_0000_0000 && Signed(y) == y - b * 0x1_0000_0000_0000_0000;
    WholeTurns(x - y, b - a);
  }

  lemma SignedSize(x: u64, y: u64)
    ensures (if Signed(x - y) < 0 then -Signed(x - y) else Signed(x - y)) == ShorterWay(x, y)
  {
    if x >= y {
      assert (x - y) % 0x1_0000_0000_0000_0000 == x - y;
    } else {
      assert (x - y) % 0x1_0000_0000_0000_0000 == x - y + 0x1_0000_0000_0000_0000;
    }
  }

  /** The int64 arithmetic gives the shorter way round from the one sample to the other modulo 2^64: the
      distance exactly when it is at most 2^63, and never more than it. */
  lemma AbsDeltaIsDistanceIff(x: u64, y: u64)
    ensures AbsDelta(x, y) == ShorterWay(x, y) <= Distance(x, y)
    ensures AbsDelta(x, y) == Distance(x, y) <==> Distance(x, y) <= 0x8000_0000_0000_0000
  {
    SignedDifference(x, y);
    SignedSize(x, y);
  }

  function ShorterWay(x: u64, y: u64): u64 {
    var d := Distance(x, y);
    if d <= 0x8000_0000_0000_0000 then d else 0x1_0000_0000_0000_0000 - d
  }

  /** n samples make n - 1 steps. */
  function Steps(n: nat, t: real): real {
    (n - 1) as real * t
  }

  function JitterSum(s: seq<u64>, hz: real): real
    requires hz > 0.0
  {
    if |s| <= 1 then 0.0
    else JitterSum(s[..|s| - 1], hz) + ToNs(AbsDelta(s[|s| - 1], s[|s| - 2]), hz)
  }

  function Jitter(s: seq<u64>, hz: real): real
    requires hz > 0.0
  {
    if |s| > 1 then JitterSum(s, hz) / (|s| - 1) as real else 0.0
  }

  predicate Bounds(s: seq<u64>, lo: u64, hi: u64) {
    forall i :: 0 <= i < |s| ==> lo <= s[i] <= hi
  }

  lemma StepBound(x: u64, y: u64, lo: u64, hi: u64, hz: real)
    requires hz > 0.0 && lo <= x <= hi && lo <= y <= hi
    ensures 0.0 <= ToNs(AbsDelta(x, y), hz) <= ToNs(hi - lo, hz)
  {
    AbsDeltaIsDistanceIff(x, y);
    ToNsDifference(0, AbsDelta(x, y), hz);
    ToNsMonotone(AbsDelta(x, y), hi - lo, hz);
  }


  lemma StepsGrow(n: nat, t: real)
    ensures Steps(n + 1, t) == Steps(n, t) + t
  {
  }

  lemma {:induction false} JitterSumBound(s: seq<u64>, lo: u64, hi: u64, hz: real, t: real)
    requires hz > 0.0 && lo <= hi && Bounds(s, lo, hi) && |s| > 0 && t == ToNs(hi - lo, hz)
    ensures 0.0 <= JitterSum(s, hz) <= Steps(|s|, t)
  {
    if |s| > 1 {
      JitterSumBound(s[..|s| - 1], lo, hi, hz, t);
      StepBound(s[|s| - 1], s[|s| - 2], lo, hi, hz);
      StepsGrow(|s| - 1, t);
    }
  }

  lemma DivideBound(sum: real, m: real, t: real)
    requires m > 0.0 && 0.0 <= sum <= m * t
    ensures 0.0 <= sum / m <= t
  {
    QuotientNonNegative(sum, m);
    QuotientNonNegative(m * t - sum, m);
    assert (m * t - sum) / m == t - sum / m;
  }

  lemma DivideSteps(sum: real, n: nat, t: real)
    requires n > 1 && 0.0 <= sum <= Steps(n, t)
    ensures 0.0 <= sum / (n - 1) as real <= t
  {
    DivideBound(sum, (n - 1) as real, t);
  }

  /** Jitter never exceeds the spread of the samples, in whatever order they were recorded. */
  lemma {:induction false} JitterWithinSpread(s: seq<u64>, lo: u64, hi: u64, hz: real)
    requires hz > 0.0 && |s| > 0 && lo <= hi && Bounds(s, lo, hi)
    ensures 0.0 <= Jitter(s, hz) <= ToNs(hi, hz) - ToNs(lo, hz)
  {
    ToNsDifference(lo, hi, hz);
    JitterSumBound(s, lo, hi, hz, ToNs(hi - lo, hz));
    if |s| > 1 {
      DivideSteps(JitterSum(s, hz), |s|, ToNs(hi - lo, hz));
    }
  }

  /** The steps from each sample to the next, in cycles: as the program takes them, and in truth. */
  function ShortSteps(s: seq<u64>): nat {
    if |s| <= 1 then 0 else ShortSteps(s[..|s| - 1]) + ShorterWay(s[|s| - 1], s[|s| - 2])
  }

  function TrueSteps(s: seq<u64>): nat {
    if |s| <= 1 then 0 else TrueSteps(s[..|s| - 1]) + Distance(s[|s| - 1], s[|s| - 2])
  }

  lemma {:induction false} JitterSumValue(s: seq<u64>, hz: real)
    requires hz > 0.0
    ensures IsNs(JitterSum(s, hz), ShortSteps(s) as real, hz)
  {
    if |s| > 1 {
      var front, step := s[..|s| - 1], ShorterWay(s[|s| - 1], s[|s| - 2]);
      JitterSumValue(front, hz);
      AbsDeltaIsDistanceIff(s[|s| - 1], s[|s| - 2]);
      ToNsIsNs(step, hz);
      IsNsAdds(JitterSum(front, hz), ShortSteps(front) as real, ToNs(step, hz), step as real, hz);
      assert ShortSteps(s) as real == ShortSteps(front) as real + step as real;
    }
  }

  /** No step is over half the range of the counter. */
  predicate SmallSteps(s: seq<u64>) {
    |s| > 1 ==> SmallSteps(s[..|s| - 1]) && Distance(s[|s| - 1], s[|s| - 2]) <= 0x8000_0000_0000_0000
  }

  lemma {:induction false} StepsAgreeIff(s: seq<u64>)
    ensures ShortSteps(s) <= TrueSteps(s)
    ensures ShortSteps(s) == TrueSteps(s) <==> SmallSteps(s)
  {
    if |s| > 1 {
      StepsAgreeIff(s[..|s| - 1]);
    }
  }

  lemma {:induction false} JitterSteps(s: seq<u64>, hz: real)
    requires hz > 0.0 && |s| > 1
    ensures Steps(|s|, Jitter(s, hz)) == JitterSum(s, hz)
  {
    StepsOfMean(JitterSum(s, hz), |s|);
  }

  lemma StepsOfMean(sum: real, n: nat)
    requires n > 1
    ensures Steps(n, sum / (n - 1) as real) == sum
  {
  }

  /** Jitter is the mean step, the shorter way round: the mean distance of adjacent samples exactly when
      none is over 2^63. */
  lemma {:induction false} JitterIsExactIff(s: seq<u64>, hz: real)
    requires hz > 0.0 && |s| > 1
    ensures IsNs(Steps(|s|, Jitter(s, hz)), ShortSteps(s) as real, hz)
    ensures IsNs(Steps(|s|, Jitter(s, hz)), TrueSteps(s) as real, hz) <==> SmallSteps(s)
  {
    JitterSumValue(s, hz);
    JitterSteps(s, hz);
    IsNsUnique(JitterSum(s, hz), ShortSteps(s) as real, TrueSteps(s) as real, hz);
    StepsAgreeIff(s);
  }

  function SumOf(s: seq<u64>): nat {
    if |s| == 0 then 0 else SumOf(s[..|s| - 1]) + s[|s| - 1]
  }

  /** mean_ns: the u64 sum, divided and truncated to whole cycles. */
  function Mean(s: seq<u64>, hz: real): real
    requires hz > 0.0 && |s| > 0
  {
    ToNs(SumOf(s) % 0x1_0000_0000_0000_0000 / |s|, hz)
  }

  lemma MeanIsNs(s: seq<u64>, hz: real)
    requires hz > 0.0 && |s| > 0
    ensures IsNs(Mean(s, hz), (SumOf(s) % 0x1_0000_0000_0000_0000 / |s|) as real, hz)
  {
    ToNsIsNs(SumOf(s) % 0x1_0000_0000_0000_0000 / |s|, hz);
  }

  lemma OneMoreInt(m: int, t: int)
    ensures (m + 1) * t == m * t + t
  {
  }

  lemma {:induction false} SumOfBounds(s: seq<u64>, lo: u64, hi: u64)
    requires Bounds(s, lo, hi)
    ensures |s| * lo <= SumOf(s) <= |s| * hi
  {
    if |s| > 0 {
      SumOfBounds(s[..|s| - 1], lo, hi);
      OneMoreInt(|s| - 1, lo);
      OneMoreInt(|s| - 1, hi);
    }
  }

  lemma QuotientBetween(sum: nat, n: nat, lo: nat, hi: nat)
    requires n > 0 && n * lo <= sum <= n * hi
    ensures lo <= sum / n <= hi
  {
    var q := sum / n;
    assert n * q <= sum < n * (q + 1);
    MultiplyMonotone(n, q + 1, lo);
    MultiplyMonotone(n, hi + 1, q);
  }

  lemma MultiplyMonotone(n: nat, a: nat, b: nat)
    ensures a <= b ==> n * a <= n * b
  {
  }

  lemma ToNsBetween(lo: nat, c: nat, hi: nat, hz: real)
    requires hz > 0.0 && lo <= c <= hi
    ensures ToNs(lo, hz) <= ToNs(c, hz) <= ToNs(hi, hz)
  {
    ToNsMonotone(lo, c, hz);
    ToNsMonotone(c, hi, hz);
  }

  /** While the sum fits in 64 bits the mean lies within the samples. */
  lemma {:induction false} MeanWithinSamples(s: seq<u64>, lo: u64, hi: u64, hz: real)
    requires hz > 0.0 && |s| > 0 && Bounds(s, lo, hi) && SumOf(s) < 0x1_0000_0000_0000_0000
    ensures ToNs(lo, hz) <= Mean(s, hz) <= ToNs(hi, hz)
  {
    SumOfBounds(s, lo, hi);
    QuotientBetween(SumOf(s), |s|, lo, hi);
    ToNsBetween(lo, SumOf(s) / |s|, hi, hz);
  }

  lemma WrapDrops(sum: nat)
    ensures sum < 0x1_0000_0000_0000_0000 ==> sum % 0x1_0000_0000_0000_0000 == sum
    ensures sum >= 0x1_0000_0000_0000_0000 ==> sum % 0x1_0000_0000_0000_0000 + 0x1_0000_0000_0000_0000 <= sum
  {
  }

  lemma SmallerSumSmallerMean(w: nat, sum: nat, n: nat, hz: real)
    requires hz > 0.0 && n > 0 && w + n <= sum
    ensures ToNs(w / n, hz) < ToNs(sum / n, hz)
  {
    QuotientGrows(w, sum, n);
    ToNsStrict(w / n, sum / n, hz);
  }

  /** The reported mean is the true one, truncated to whole cycles, exactly when the 64-bit sum does not
      wrap (a sample count itself fits in 64 bits). */
  lemma {:induction false} MeanIsExactIff(s: seq<u64>, hz: real)
    requires hz > 0.0 && 0 < |s| < 0x1_0000_0000_0000_0000
    ensures Mean(s, hz) == ToNs(SumOf(s) / |s|, hz) <==> SumOf(s) < 0x1_0000_0000_0000_0000
  {
    var sum := SumOf(s);
    WrapDrops(sum);
    if sum >= 0x1_0000_0000_0000_0000 {
      SmallerSumSmallerMean(sum % 0x1_0000_0000_0000_0000, sum, |s|, hz);
    }
  }

  lemma QuotientGrows(x: nat, y: nat, n: nat)
    requires n > 0 && x + n <= y
    ensures x / n < y / n
  {
    var q := x / n;
    assert n * (q + 1) <= y;
    MultiplyMonotone(n, y / n + 1, q + 1);
  }

  lemma ToNsStrict(x: nat, y: nat, hz: real)
    requires hz > 0.0 && x < y
    ensures ToNs(x, hz) < ToNs(y, hz)
  {
    ToNsDifference(x, y, hz);
    assert ToNs(y - x, hz) * hz == (y - x) as real * NS_PER_SECOND;
  }

  /** When it does not fit, the mean can fall below every sample. */
  lemma MeanCanWrap(hz: real)
    requires hz > 0.0
    ensures var s := [0x8000_0000_0000_0000, 0x8000_0000_0000_0000];
      Mean(s, hz) == 0.0 < ToNs(0x8000_0000_0000_0000, hz)
  {
    var s: seq<u64> := [0x8000_0000_0000_0000, 0x8000_0000_0000_0000];
    assert s[..1][..0] == [];
    assert SumOf(s[..1]) == 0x8000_0000_0000_0000;
    assert SumOf(s) == 0x1_0000_0000_0000_0000;
  }
}

/** The sample collector: bounded recording, and the summary computed over an in-place sort. */
module Stats {
  import opened Words
  import opened Percentile
  import opened Deviation

  datatype Summary = Summary(n: nat, min: real, max: real, mean: real, stddev: real, p50: real, p90: real, p95: real,
                             p99: real, p999: real, p9999: real, p99999: real, jitter: real)

  /** The order statistics of sorted samples beside the three figures taken in recording order. */
  function OrderStatistics(sorted: seq<u64>, mean: real, stddev: real, jitter: real, hz: real): Summary
    requires hz > 0.0 && |sorted| > 0
  {
    Summary(|sorted|, ToNs(sorted[0], hz), ToNs(sorted[|sorted| - 1], hz), mean, stddev,
            Pct(sorted, 0.50, hz), Pct(sorted, 0.90, hz), Pct(sorted, 0.95, hz), Pct(sorted, 0.99, hz),
            Pct(sorted, 0.999, hz), Pct(sorted, 0.9999, hz), Pct(sorted, 0.99999, hz), jitter)
  }

  /** What stats_compute stores, from the samples as recorded and as sorted. */
  function Summarise(recorded: seq<u64>, sorted: seq<u64>, hz: real): Summary
    requires hz > 0.0 && |recorded| == |sorted| > 0
  {
    OrderStatistics(sorted, Mean(recorded, hz), ToNs(StdCycles(recorded), hz), Jitter(recorded, hz), hz)
  }

  lemma SortedBoundsRecorded(recorded: seq<u64>, sorted: seq<u64>)
    requires Sorted(sorted) && Permutes(recorded, sorted) && |sorted| > 0
    ensures Bounds(recorded, sorted[0], sorted[|sorted| - 1])
  {
    forall i | 0 <= i < |recorded|
      ensures sorted[0] <= recorded[i] <= sorted[|sorted| - 1]
    {
      assert recorded[i] in multiset(sorted);
      var j :| 0 <= j < |sorted| && sorted[j] == recorded[i];
    }
  }

  /** min <= p50 <= p90 <= p95 <= p99 <= p99.9 <= p99.99 <= p99.999 <= max, and the jitter, taken in
      recording order, is within max - min. While the 64-bit sum does not wrap, the mean is within the
      samples and the standard deviation within half of max - min. */
  lemma PercentileChain(recorded: seq<u64>, sorted: seq<u64>, hz: real)
    requires hz > 0.0 && |recorded| == |sorted| > 0
    requires Sorted(sorted) && Permutes(recorded, sorted)
    ensures var r := Summarise(recorded, sorted, hz);
      && r.min <= r.p50 <= r.p90 <= r.p95 <= r.p99 <= r.p999 <= r.p9999 <= r.p99999 <= r.max
      && 0.0 <= r.jitter <= r.max - r.min
      && (SumOf(recorded) < 0x1_0000_0000_0000_0000 ==>
            r.min <= r.mean <= r.max && 0.0 <= 2.0 * r.stddev <= r.max - r.min)
  {
    PctEnds(sorted, hz);
    PctMonotone(sorted, 0.0, 0.50, hz);
    PctMonotone(sorted, 0.50, 0.90, hz);
    PctMonotone(sorted, 0.90, 0.95, hz);
    PctMonotone(sorted, 0.95, 0.99, hz);
    PctMonotone(sorted, 0.99, 0.999, hz);
    PctMonotone(sorted, 0.999, 0.9999, hz);
    PctMonotone(sorted, 0.9999, 0.99999, hz);
    PctMonotone(sorted, 0.99999, 1.0, hz);
    SpreadHolds(recorded, sorted, hz);
  }

  lemma SpreadHolds(recorded: seq<u64>, sorted: seq<u64>, hz: real)
    requires hz > 0.0 && |recorded| == |sorted| > 0
    requires Sorted(sorted) && Permutes(recorded, sorted)
    ensures var (lo, hi) := (ToNs(sorted[0], hz), ToNs(sorted[|sorted| - 1], hz));
      && 0.0 <= Jitter(recorded, hz) <= hi - lo
      && (SumOf(recorded) < 0x1_0000_0000_0000_0000 ==>
            lo <= Mean(recorded, hz) <= hi && 0.0 <= 2.0 * ToNs(StdCycles(recorded), hz) <= hi - lo)
  {
    SortedBoundsRecorded(recorded, sorted);
    var (lo, hi) := (sorted[0], sorted[|sorted| - 1]);
    assert lo <= recorded[0] <= hi;
    JitterWithinSpread(recorded, lo, hi, hz);
    if SumOf(recorded) < 0x1_0000_0000_0000_0000 {
      MeanWithinSamples(recorded, lo, hi, hz);
      StdSpread(recorded, lo, hi, hz);
    }
  }

  lemma StdSpread(s: seq<u64>, lo: u64, hi: u64, hz: real)
    requires hz > 0.0 && |s| > 0 && lo <= hi && Bounds(s, lo, hi) && SumOf(s) < 0x1_0000_0000_0000_0000
    ensures 0.0 <= 2.0 * ToNs(StdCycles(s), hz) <= ToNs(hi, hz) - ToNs(lo, hz)
  {
    var std := StdCycles(s);
    StdWithinHalfSpread(s, lo, hi);
    ToNsDifference(0, std, hz);
    ToNsDifference(std, 2 * std, hz);
    ToNsMonotone(2 * std, hi - lo, hz);
    ToNsDifference(lo, hi, hz);
  }

  /** The fields taken from the samples as recorded, in their own cycles. */
  ghost predicate RecordedFields(recorded: seq<u64>, hz: real, r: Summary)
    requires |recorded| > 0
  {
    && r.n == |recorded|
    && IsNs(r.mean, (SumOf(recorded) % 0x1_0000_0000_0000_0000 / |recorded|) as real, hz)
    && IsNs(r.stddev, StdCycles(recorded) as real, hz)
    && (if |recorded| == 1 then r.jitter == 0.0
        else IsNs(Steps(|recorded|, r.jitter), ShortSteps(recorded) as real, hz))
  }

  /** The fields taken from the sorted samples, each with its own rank. */
  ghost predicate OrderFields(sorted: seq<u64>, hz: real, r: Summary)
    requires |sorted| > 0
  {
    && IsNs(r.min, sorted[0] as real, hz) && IsNs(r.max, sorted[|sorted| - 1] as real, hz)
    && Interpolates(sorted, 0.50, hz, r.p50) && Interpolates(sorted, 0.90, hz, r.p90)
    && Interpolates(sorted, 0.95, hz, r.p95) && Interpolates(sorted, 0.99, hz, r.p99)
    && Interpolates(sorted, 0.999, hz, r.p999) && Interpolates(sorted, 0.9999, hz, r.p9999)
    && Interpolates(sorted, 0.99999, hz, r.p99999)
  }

  lemma RecordedFieldsHold(recorded: seq<u64>, sorted: seq<u64>, hz: real)
    requires hz > 0.0 && |recorded| == |sorted| > 0
    ensures RecordedFields(recorded, hz, Summarise(recorded, sorted, hz))
  {
    MeanIsNs(recorded, hz);
    ToNsIsNs(StdCycles(recorded), hz);
    if |recorded| > 1 {
      JitterIsExactIff(recorded, hz);
    }
  }

  lemma OrderFieldsHold(recorded: seq<u64>, sorted: seq<u64>, hz: real)
    requires hz > 0.0 && |recorded| == |sorted| > 0
    ensures OrderFields(sorted, hz, Summarise(recorded, sorted, hz))
  {
    ToNsIsNs(sorted[0], hz);
    ToNsIsNs(sorted[|sorted| - 1], hz);
    PctInterpolates(sorted, 0.50, hz);
    PctInterpolates(sorted, 0.90, hz);
    PctInterpolates(sorted, 0.95, hz);
    PctInterpolates(sorted, 0.99, hz);
    PctInterpolates(sorted, 0.999, hz);
    PctInterpolates(sorted, 0.9999, hz);
    PctInterpolates(sorted, 0.99999, hz);
  }

  /** Same samples, possibly in another order. */
  ghost predicate Permutes(s: seq<u64>, t: seq<u64>) {
    multiset(s) == multiset(t)
  }

  method SwapDown(a: array<u64>, j: nat, n: nat)
    requires 0 < j < n <= a.Length
    modifies a
    ensures a[j - 1] == old(a[j]) && a[j] == old(a[j - 1])
    ensures forall k :: 0 <= k < a.Length && k != j && k != j - 1 ==> a[k] == old(a[k])
    ensures Permutes(a[..n], old(a[..n])) && a[n..] == old(a[n..])
  {
    ghost var before := a[..n];
    a[j - 1], a[j] := a[j], a[j - 1];
    assert a[..n] == before[j - 1 := before[j]][j := before[j - 1]];
  }

  /** qsort(samples, n): the library's sort, written here as an insertion sort. */
  method SortPrefix(a: array<u64>, n: nat)
    requires n <= a.Length
    modifies a
    ensures Sorted(a[..n]) && Permutes(a[..n], old(a[..n]))
    ensures a[n..] == old(a[n..])
  {
    var i := 0;
    while i < n
      invariant 0 <= i <= n && Sorted(a[..i])
      invariant Permutes(a[..n], old(a[..n])) && a[n..] == old(a[n..])
    {
      InsertLast(a, i, n);
      i := i + 1;
    }
  }

  method InsertLast(a: array<u64>, last: nat, n: nat)
    requires last < n <= a.Length && Sorted(a[..last])
    modifies a
    ensures Sorted(a[..last + 1]) && Permutes(a[..n], old(a[..n]))
    ensures a[n..] == old(a[n..])
  {
    var j := last;
    while j > 0 && a[j - 1] > a[j]
      invariant 0 <= j <= last
      invariant forall p, q :: 0 <= p < q <= last && q != j ==> a[p] <= a[q]
      invariant Permutes(a[..n], old(a[..n])) && a[n..] == old(a[n..])
    {
      SwapDown(a, j, n);
      j := j - 1;
    }
  }

  lemma SumPush(s: seq<u64>, i: nat)
    requires i < |s|
    ensures SumOf(s[..i + 1]) % 0x1_0000_0000_0000_0000
         == (SumOf(s[..i]) % 0x1_0000_0000_0000_0000 + s[i]) % 0x1_0000_0000_0000_0000
  {
    assert s[..i + 1][..i] == s[..i];
  }

  class Collector {
    const samples: array<u64>
    var count: nat

    ghost predicate Valid()
      reads this
    {
      count <= samples.Length
    }

    /** The samples held, oldest first until they are sorted. */
    ghost function Recorded(): seq<u64>
      requires Valid()
      reads this, samples
    {
      samples[..count]
    }

    constructor (capacity: nat)
      ensures Valid() && Recorded() == [] && samples.Length == capacity && fresh(samples)
    {
      samples := new u64[capacity](_ => 0);
      count := 0;
    }

    /** stats_record: kept while there is room, dropped after. */
    method Record(cycles: u64)
      requires Valid()
      modifies this, samples
      ensures Valid()
      ensures Recorded() == if old(count) < samples.Length then old(Recorded()) + [cycles] else old(Recorded())
    {
      if count < samples.Length {
        samples[count] := cycles;
        count := count + 1;
      }
    }

    method ComputeJitter(hz: real) returns (jitter: real)
      requires Valid() && count > 0 && hz > 0.0
      ensures jitter == Jitter(Recorded(), hz)
    {
      ghost var all := samples[..count];
      var sum := 0.0;
      var i := 1;
      while i < count
        invariant 1 <= i <= count && sum == JitterSum(all[..i], hz)
      {
        assert all[..i + 1][..i] == all[..i];
        sum := sum + ToNs(AbsDelta(samples[i], samples[i - 1]), hz);
        i := i + 1;
      }
      assert all[..count] == all;
      jitter := if count > 1 then sum / (count - 1) as real else 0.0;
    }

    method ComputeSum() returns (sum: u64)
      requires Valid()
      ensures sum == SumOf(Recorded()) % 0x1_0000_0000_0000_0000
    {
      ghost var all := samples[..count];
      sum := 0;
      var i := 0;
      while i < count
        invariant 0 <= i <= count && sum == SumOf(all[..i]) % 0x1_0000_0000_0000_0000
      {
        SumPush(all, i);
        sum := (sum + samples[i]) % 0x1_0000_0000_0000_0000;
        i := i + 1;
      }
      assert all[..count] == all;
    }

    method ComputeSquares(mean: real) returns (squares: real)
      requires Valid()
      ensures squares == SquareSum(Recorded(), mean)
    {
      ghost var all := samples[..count];
      squares := 0.0;
      var i := 0;
      while i < count
        invariant 0 <= i <= count && squares == SquareSum(all[..i], mean)
      {
        assert all[..i + 1][..i] == all[..i];
        var d := samples[i] as real - mean;
        squares := squares + d * d;
        i := i + 1;
      }
      assert all[..count] == all;
    }

    /** The square root of the average square is the library's; here it is FloorSqrt. */
    method ComputeStd(sum: u64) returns (std: u64)
      requires Valid() && count > 0 && sum == SumOf(Recorded()) % 0x1_0000_0000_0000_0000
      ensures std == StdCycles(Recorded())
    {
      var squares := ComputeSquares(sum as real / count as real);
      SquareSumNonNegative(Recorded(), MeanCycles(Recorded()));
      QuotientNonNegative(squares, count as real);
      StdFits(Recorded());
      std := FloorSqrt(squares / count as real);
    }

    /** The three figures taken before the sort. */
    method ComputeInOrder(hz: real) returns (mean: real, stddev: real, jitter: real)
      requires Valid() && count > 0 && hz > 0.0
      ensures mean == Mean(Recorded(), hz)
      ensures stddev == ToNs(StdCycles(Recorded()), hz)
      ensures jitter == Jitter(Recorded(), hz)
    {
      jitter := ComputeJitter(hz);
      var sum := ComputeSum();
      mean := ToNs(sum / count, hz);
      var std := ComputeStd(sum);
      stddev := ToNs(std, hz);
    }

    /** stats_compute: jitter, mean and deviation in recording order, then the sort and the order
        statistics. */
    method Compute(hz: real) returns (r: Option<Summary>)
      requires Valid() && hz > 0.0
      modifies samples
      ensures Valid() && Sorted(Recorded()) && Permutes(Recorded(), old(Recorded()))
      ensures old(Recorded()) == [] ==> r == None
      ensures |Recorded()| == |old(Recorded())|
      ensures old(Recorded()) != [] ==>
        && r == Some(Summarise(old(Recorded()), Recorded(), hz))
        && RecordedFields(old(Recorded()), hz, r.value) && OrderFields(Recorded(), hz, r.value)
    {
      if count == 0 { return None; }
      var mean, stddev, jitter := ComputeInOrder(hz);
      SortPrefix(samples, count);
      RecordedFieldsHold(old(Recorded()), Recorded(), hz);
      OrderFieldsHold(old(Recorded()), Recorded(), hz);
      r := Some(OrderStatistics(samples[..count], mean, stddev, jitter, hz));
    }
  }
}

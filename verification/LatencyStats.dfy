/** The nearest-rank percentiles the benchmark reports. */
module LatencyStats {
  import opened Wrappers
  import opened Counting

  function Ceil(x: real): int {
    -(-x).Floor
  }

  /** The rank, from 1 to `n`, of the given fraction of `n` values. */
  function Rank(n: nat, fraction: real): nat
    requires n > 0
  {
    var rank := Ceil(fraction * n as real);
    var atLeastOne := if rank < 1 then 1 else rank;
    if n < atLeastOne then n else atLeastOne
  }

  lemma ProductOfPositives(a: real, b: real)
    requires a >= 0.0 && b >= 0.0
    ensures a * b >= 0.0
    ensures a > 0.0 && b > 0.0 ==> a * b > 0.0
  {
  }

  lemma ShareBounds(fraction: real, whole: real)
    requires 0.0 < fraction <= 1.0 && whole > 0.0
    ensures 0.0 < fraction * whole <= whole
  {
    ProductOfPositives(fraction, whole);
    ProductOfPositives(1.0 - fraction, whole);
  }

  lemma RankIsNearest(n: nat, fraction: real)
    requires n > 0 && 0.0 < fraction <= 1.0
    ensures 1 <= Rank(n, fraction) <= n
    ensures (Rank(n, fraction) - 1) as real < fraction * n as real <= Rank(n, fraction) as real
  {
    ShareBounds(fraction, n as real);
  }

  lemma RankMonotone(n: nat, lower: real, higher: real)
    requires n > 0 && lower <= higher
    ensures 1 <= Rank(n, lower) <= Rank(n, higher) <= n
  {
    ProductOfPositives(higher - lower, n as real);
  }

  /** `percentile`, with None for NaN. */
  function Percentile(sorted: seq<real>, fraction: real): Option<real> {
    if sorted == [] then None
    else Some(sorted[Rank(|sorted|, fraction) - 1])
  }

  ghost function AtMost(values: seq<real>, v: real): set<nat> {
    set i: nat | i < |values| && values[i] <= v
  }

  ghost function Below(values: seq<real>, v: real): set<nat> {
    set i: nat | i < |values| && values[i] < v
  }

  /** At least the fraction of the values are no greater than `v`, and less than the fraction are smaller. */
  ghost predicate NearestRank(values: seq<real>, fraction: real, v: real) {
    |Below(values, v)| as real < fraction * |values| as real <= |AtMost(values, v)| as real
  }

  lemma RankCounts(sorted: seq<real>, rank: nat)
    requires Sorted(sorted) && 1 <= rank <= |sorted|
    ensures |Below(sorted, sorted[rank - 1])| < rank <= |AtMost(sorted, sorted[rank - 1])|
  {
    var v := sorted[rank - 1];
    assert forall i :: i in Below(sorted, v) ==> i in Interval(0, rank - 1);
    SubsetSize(Below(sorted, v), Interval(0, rank - 1));
    SubsetSize(Interval(0, rank), AtMost(sorted, v));
  }

  lemma PercentileIsNearestRank(sorted: seq<real>, fraction: real)
    requires Sorted(sorted) && sorted != [] && 0.0 < fraction <= 1.0
    ensures Percentile(sorted, fraction).Some? && Percentile(sorted, fraction).value in sorted
    ensures NearestRank(sorted, fraction, Percentile(sorted, fraction).value)
  {
    var rank := Rank(|sorted|, fraction);
    RankIsNearest(|sorted|, fraction);
    RankCounts(sorted, rank);
  }

  /** Only one value has the nearest rank, so the percentile is exactly that value. */
  lemma PercentileIff(sorted: seq<real>, fraction: real, v: real)
    requires Sorted(sorted) && sorted != [] && 0.0 < fraction <= 1.0
    ensures Percentile(sorted, fraction) == Some(v) <==> NearestRank(sorted, fraction, v)
  {
    PercentileIsNearestRank(sorted, fraction);
    var w := Percentile(sorted, fraction).value;
    if v < w {
      SubsetSize(AtMost(sorted, v), Below(sorted, w));
    } else if w < v {
      SubsetSize(AtMost(sorted, w), Below(sorted, v));
    }
  }

  lemma PercentileMonotone(sorted: seq<real>, lower: real, higher: real)
    requires Sorted(sorted) && sorted != [] && lower <= higher
    ensures Percentile(sorted, lower).value <= Percentile(sorted, higher).value
  {
    RankMonotone(|sorted|, lower, higher);
  }

  /** Fractions outside that range give the least and the greatest value, and no values give none. */
  lemma PercentileOutside(sorted: seq<real>, fraction: real)
    requires Sorted(sorted)
    ensures sorted == [] ==> Percentile(sorted, fraction) == None
    ensures sorted != [] && fraction <= 0.0 ==> Percentile(sorted, fraction) == Some(sorted[0])
    ensures sorted != [] && fraction >= 1.0 ==> Percentile(sorted, fraction) == Some(sorted[|sorted| - 1])
  {
    if fraction <= 0.0 {
      ProductOfPositives(-fraction, |sorted| as real);
    } else if fraction >= 1.0 {
      ProductOfPositives(fraction - 1.0, |sorted| as real);
    }
  }

  datatype Summary = Summary(p50: Option<real>, p95: Option<real>, max: Option<real>)

  /** What `summarize` reports of values already sorted, before rounding. */
  function Summarize(sorted: seq<real>): Summary {
    Summary(
      Percentile(sorted, 0.5), Percentile(sorted, 0.95),
      if sorted == [] then None else Some(sorted[|sorted| - 1]))
  }

  ghost predicate IsSortOf(sorted: seq<real>, values: seq<real>) {
    Sorted(sorted) && multiset(sorted) == multiset(values)
  }

  lemma HeadIsLeast(a: seq<real>, b: seq<real>)
    requires Sorted(a) && a != [] && b != [] && multiset(a) == multiset(b)
    ensures a[0] <= b[0]
  {
    assert b[0] in multiset(b);
    assert b[0] in a;
  }

  lemma RestsAgree(first: real, a: seq<real>, b: seq<real>)
    requires multiset([first] + a) == multiset([first] + b)
    ensures multiset(a) == multiset(b)
  {
    assert multiset([first] + a) == multiset{first} + multiset(a);
    assert multiset([first] + b) == multiset{first} + multiset(b);
    assert multiset(a) == multiset([first] + a) - multiset{first};
  }

  lemma {:induction false} SortIsUnique(a: seq<real>, b: seq<real>)
    requires Sorted(a) && Sorted(b) && multiset(a) == multiset(b)
    ensures a == b
  {
    assert |multiset(a)| == |a| && |multiset(b)| == |b|;
    if a != [] {
      HeadIsLeast(a, b);
      HeadIsLeast(b, a);
      assert a == [a[0]] + a[1..] && b == [a[0]] + b[1..];
      RestsAgree(a[0], a[1..], b[1..]);
      SortIsUnique(a[1..], b[1..]);
    }
  }

  /** p50, p95 and max are in order, and do not depend on the order of the values. */
  lemma SummaryIsOrdered(values: seq<real>, sorted: seq<real>, permuted: seq<real>, sortedToo: seq<real>)
    requires values != [] && multiset(values) == multiset(permuted)
    requires IsSortOf(sorted, values) && IsSortOf(sortedToo, permuted)
    ensures Summarize(sorted) == Summarize(sortedToo)
    ensures var Summary(p50, p95, max) := Summarize(sorted);
            p50.Some? && p95.Some? && max.Some? && p50.value <= p95.value <= max.value
    ensures forall v :: v in values ==> v <= Summarize(sorted).max.value
  {
    assert |multiset(sorted)| == |sorted| && |multiset(values)| == |values|;
    SortIsUnique(sorted, sortedToo);
    PercentileMonotone(sorted, 0.5, 0.95);
    forall v | v in values
      ensures v <= sorted[|sorted| - 1]
    {
      assert v in multiset(sorted);
    }
  }

  /** The value at half and at 95 percent of the nearest ranks, and the greatest; nothing of no values. */
  lemma SummaryMeans(sorted: seq<real>, v: real)
    requires Sorted(sorted)
    ensures sorted == [] ==> Summarize(sorted) == Summary(None, None, None)
    ensures sorted != [] ==>
              && (Summarize(sorted).p50 == Some(v) <==> NearestRank(sorted, 0.5, v))
              && (Summarize(sorted).p95 == Some(v) <==> NearestRank(sorted, 0.95, v))
              && (Summarize(sorted).max == Some(v) <==> v in sorted && forall w :: w in sorted ==> w <= v)
  {
    if sorted != [] {
      PercentileIff(sorted, 0.5, v);
      PercentileIff(sorted, 0.95, v);
      assert sorted[|sorted| - 1] in sorted;
    }
  }
}

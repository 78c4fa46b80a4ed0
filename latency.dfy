/**
 * The integer part of the latency report: the recorded end-to-end latencies
 * are sorted in place, then count, sum, minimum, maximum and the 50th, 90th
 * and 99th percentiles are read off the sorted samples.
 */
module Latency {
  import opened Wrappers

  ghost predicate Sorted(s: seq<int>)
  {
    forall i, j :: 0 <= i <= j < |s| ==> s[i] <= s[j]
  }

  /** The sum of the samples (std::accumulate from 0). */
  function Sum(s: seq<int>): int
  {
    if s == [] then 0 else Sum(s[..|s| - 1]) + s[|s| - 1]
  }

  /**
   * The nearest-rank index of a percentile: floor(count * percent / 100).
   * For any percent below 100 it is a valid index into the samples, and a
   * larger percent never gives a smaller index.
   */
  function PercentileIndex(count: nat, percent: nat): (i: nat)
    requires count > 0 && percent < 100
    ensures i < count
    ensures forall q: nat :: percent <= q < 100 ==> i <= count * q / 100
  {
    IndexBelowCount(count, percent);
    forall q: nat | percent <= q < 100 ensures count * percent / 100 <= count * q / 100 {
      DivMonotone(count * percent, count * q);
    }
    count * percent / 100
  }

  lemma IndexBelowCount(count: nat, percent: nat)
    requires count > 0 && percent < 100
    ensures count * percent / 100 < count
  {
    assert count * percent <= count * 99;
    DivMonotone(count * percent, count * 99);
    assert count * 99 / 100 < count;
  }

  lemma DivMonotone(a: nat, b: nat)
    requires a <= b
    ensures a / 100 <= b / 100
  {
  }

  /** What the report shows, apart from the floating-point mean. */
  datatype Stats = Stats(count: nat, sum: int, min: int, max: int, p50: int, p90: int, p99: int)

  /** The number of samples at most v. */
  function CountAtMost(s: seq<int>, v: int): nat
  {
    if s == [] then 0
    else CountAtMost(s[..|s| - 1], v) + (if s[|s| - 1] <= v then 1 else 0)
  }

  /**
   * v is the sample of rank k (counting from 0) among the samples s, in
   * whatever order they are held: at most k samples are below v and more
   * than k are at or below it.
   */
  ghost predicate Ranked(s: seq<int>, k: int, v: int)
  {
    CountAtMost(s, v - 1) <= k < CountAtMost(s, v)
  }

  lemma {:induction false} CountAtMostAppend(a: seq<int>, b: seq<int>, v: int)
    ensures CountAtMost(a + b, v) == CountAtMost(a, v) + CountAtMost(b, v)
    decreases |b|
  {
    if b != [] {
      assert (a + b)[..|a + b| - 1] == a + b[..|b| - 1];
      CountAtMostAppend(a, b[..|b| - 1], v);
    } else {
      assert a + b == a;
    }
  }

  lemma {:induction false} CountAtMostAll(s: seq<int>, v: int)
    requires forall i :: 0 <= i < |s| ==> s[i] <= v
    ensures CountAtMost(s, v) == |s|
    decreases |s|
  {
    if s != [] {
      CountAtMostAll(s[..|s| - 1], v);
    }
  }

  lemma {:induction false} CountAtMostNone(s: seq<int>, v: int)
    requires forall i :: 0 <= i < |s| ==> v < s[i]
    ensures CountAtMost(s, v) == 0
    decreases |s|
  {
    if s != [] {
      CountAtMostNone(s[..|s| - 1], v);
    }
  }

  lemma {:induction false} CountAtMostBounded(s: seq<int>, v: int)
    ensures CountAtMost(s, v) <= |s|
    decreases |s|
  {
    if s != [] {
      CountAtMostBounded(s[..|s| - 1], v);
    }
  }

  lemma {:induction false} CountAtMostMonotone(s: seq<int>, v: int, w: int)
    requires v <= w
    ensures CountAtMost(s, v) <= CountAtMost(s, w)
    decreases |s|
  {
    if s != [] {
      CountAtMostMonotone(s[..|s| - 1], v, w);
    }
  }

  /** When every sample from index k on is above v, at most k samples are at most v. */
  lemma CountAtMostPrefix(s: seq<int>, k: nat, v: int)
    requires k <= |s|
    requires forall i :: k <= i < |s| ==> v < s[i]
    ensures CountAtMost(s, v) <= k
  {
    var before, from := s[..k], s[k..];
    assert s == before + from;
    CountAtMostAppend(before, from, v);
    CountAtMostBounded(before, v);
    CountAtMostNone(from, v);
  }

  /** When every sample before index k is at most v, at least k samples are. */
  lemma CountAtLeastPrefix(s: seq<int>, k: nat, v: int)
    requires k <= |s|
    requires forall i :: 0 <= i < k ==> s[i] <= v
    ensures k <= CountAtMost(s, v)
  {
    var before, from := s[..k], s[k..];
    assert s == before + from;
    CountAtMostAppend(before, from, v);
    CountAtMostAll(before, v);
  }

  /** In sorted samples, the sample at index k has rank k. */
  lemma SortedRank(sorted: seq<int>, k: nat)
    requires Sorted(sorted) && k < |sorted|
    ensures Ranked(sorted, k, sorted[k])
  {
    CountAtMostPrefix(sorted, k, sorted[k] - 1);
    CountAtLeastPrefix(sorted, k + 1, sorted[k]);
  }

  /** A rank names one value: two values of the same rank among the same samples are equal. */
  lemma RankedUnique(s: seq<int>, k: int, v: int, w: int)
    requires Ranked(s, k, v) && Ranked(s, k, w)
    ensures v == w
  {
    if v < w {
      CountAtMostMonotone(s, v, w - 1);
    } else if w < v {
      CountAtMostMonotone(s, w, v - 1);
    }
  }

  /**
   * The report over sorted samples: none when there are no samples;
   * otherwise min and max are samples that bound every sample, and each
   * percentile p is the sample of rank count * p / 100.
   */
  function Summary(sorted: seq<int>): (r: Option<Stats>)
    requires Sorted(sorted)
    ensures r.None? <==> sorted == []
    ensures r.Some? ==> r.value.count == |sorted| && r.value.sum == Sum(sorted)
    ensures r.Some? ==> forall i :: 0 <= i < |sorted| ==> r.value.min <= sorted[i] <= r.value.max
    ensures r.Some? ==> r.value.min in sorted && r.value.max in sorted
    ensures r.Some? ==> Ranked(sorted, PercentileIndex(|sorted|, 50), r.value.p50)
    ensures r.Some? ==> Ranked(sorted, PercentileIndex(|sorted|, 90), r.value.p90)
    ensures r.Some? ==> Ranked(sorted, PercentileIndex(|sorted|, 99), r.value.p99)
    ensures r.Some? ==> r.value.min <= r.value.p50 <= r.value.p90 <= r.value.p99 <= r.value.max
  {
    if sorted == [] then None
    else
      var n := |sorted|;
      var i50, i90, i99 := PercentileIndex(n, 50), PercentileIndex(n, 90), PercentileIndex(n, 99);
      SortedRank(sorted, i50);
      SortedRank(sorted, i90);
      SortedRank(sorted, i99);
      Some(Stats(n, Sum(sorted), sorted[0], sorted[n - 1], sorted[i50], sorted[i90], sorted[i99]))
  }

  lemma {:induction false} SumAppend(a: seq<int>, b: seq<int>)
    ensures Sum(a + b) == Sum(a) + Sum(b)
    decreases |b|
  {
    if b != [] {
      assert (a + b)[..|a + b| - 1] == a + b[..|b| - 1];
      SumAppend(a, b[..|b| - 1]);
    } else {
      assert a + b == a;
    }
  }

  /** Taking out the sample at index j removes it from the multiset, the sum and the counts. */
  lemma RemoveAt(t: seq<int>, j: nat, v: int)
    requires j < |t|
    ensures multiset(t[..j] + t[j + 1..]) == multiset(t) - multiset{t[j]}
    ensures Sum(t) == Sum(t[..j] + t[j + 1..]) + t[j]
    ensures CountAtMost(t, v) == CountAtMost(t[..j] + t[j + 1..], v) + (if t[j] <= v then 1 else 0)
  {
    var x, front, back := t[j], t[..j], t[j + 1..];
    assert t == front + [x] + back;
    assert multiset(t) == multiset(front) + multiset{x} + multiset(back);
    SumAppend(front + [x], back);
    SumAppend(front, [x]);
    SumAppend(front, back);
    CountAtMostAppend(front + [x], back, v);
    CountAtMostAppend(front, [x], v);
    CountAtMostAppend(front, back, v);
    assert [x][..0] == [];
  }

  /** The sum does not depend on the order of the samples. */
  lemma {:induction false} SumPermutation(s: seq<int>, t: seq<int>)
    requires multiset(s) == multiset(t)
    ensures Sum(s) == Sum(t)
    decreases |s|
  {
    if s == [] {
      assert |t| == |multiset(t)| == 0;
    } else {
      var x := s[|s| - 1];
      assert x in multiset(t);
      var j :| 0 <= j < |t| && t[j] == x;
      RemoveAt(s, |s| - 1, 0);
      RemoveAt(t, j, 0);
      assert s[..|s| - 1] + s[|s|..] == s[..|s| - 1];
      SumPermutation(s[..|s| - 1], t[..j] + t[j + 1..]);
    }
  }

  /** The number of samples at most v does not depend on their order. */
  lemma {:induction false} CountPermutation(s: seq<int>, t: seq<int>, v: int)
    requires multiset(s) == multiset(t)
    ensures CountAtMost(s, v) == CountAtMost(t, v)
    decreases |s|
  {
    if s == [] {
      assert |t| == |multiset(t)| == 0;
    } else {
      var x := s[|s| - 1];
      assert x in multiset(t);
      var j :| 0 <= j < |t| && t[j] == x;
      RemoveAt(s, |s| - 1, v);
      RemoveAt(t, j, v);
      assert s[..|s| - 1] + s[|s|..] == s[..|s| - 1];
      CountPermutation(s[..|s| - 1], t[..j] + t[j + 1..], v);
    }
  }

  /** Bounds of the sorted samples that are samples are bounds of the recorded ones. */
  lemma BoundsOfRecorded(recorded: seq<int>, sorted: seq<int>, lo: int, hi: int)
    requires multiset(sorted) == multiset(recorded)
    requires lo in sorted && hi in sorted
    requires forall i :: 0 <= i < |sorted| ==> lo <= sorted[i] <= hi
    ensures lo in recorded && hi in recorded
    ensures forall i :: 0 <= i < |recorded| ==> lo <= recorded[i] <= hi
  {
    assert lo in multiset(sorted) && hi in multiset(sorted);
    forall i | 0 <= i < |recorded| ensures lo <= recorded[i] <= hi {
      assert recorded[i] in multiset(recorded);
      var j :| 0 <= j < |sorted| && sorted[j] == recorded[i];
    }
  }

  /** A rank among the sorted samples is the same rank among the recorded ones. */
  lemma RankOfRecorded(recorded: seq<int>, sorted: seq<int>, k: int, v: int)
    requires multiset(sorted) == multiset(recorded) && Ranked(sorted, k, v)
    ensures Ranked(recorded, k, v)
  {
    CountPermutation(sorted, recorded, v - 1);
    CountPermutation(sorted, recorded, v);
  }

  /**
   * Because the sorted samples are a permutation of the recorded ones, the
   * report describes the recorded latencies: min and max are the least and
   * greatest of them, count and sum are theirs, and each percentile p is
   * the recorded latency of rank count * p / 100.
   */
  lemma SummaryOfRecorded(recorded: seq<int>, sorted: seq<int>)
    requires Sorted(sorted) && multiset(sorted) == multiset(recorded)
    ensures Summary(sorted).None? <==> recorded == []
    ensures Summary(sorted).Some? ==>
      && Summary(sorted).value.count == |recorded|
      && Summary(sorted).value.sum == Sum(recorded)
      && Summary(sorted).value.min in recorded && Summary(sorted).value.max in recorded
      && forall i :: 0 <= i < |recorded| ==>
           Summary(sorted).value.min <= recorded[i] <= Summary(sorted).value.max
    ensures Summary(sorted).Some? ==> var r := Summary(sorted).value;
      && Ranked(recorded, PercentileIndex(r.count, 50), r.p50)
      && Ranked(recorded, PercentileIndex(r.count, 90), r.p90)
      && Ranked(recorded, PercentileIndex(r.count, 99), r.p99)
  {
    assert |sorted| == |multiset(sorted)| == |multiset(recorded)| == |recorded|;
    if sorted != [] {
      var r := Summary(sorted).value;
      SumPermutation(sorted, recorded);
      BoundsOfRecorded(recorded, sorted, r.min, r.max);
      RankOfRecorded(recorded, sorted, PercentileIndex(r.count, 50), r.p50);
      RankOfRecorded(recorded, sorted, PercentileIndex(r.count, 90), r.p90);
      RankOfRecorded(recorded, sorted, PercentileIndex(r.count, 99), r.p99);
    }
  }

  /**
   * The nearest-rank convention at small counts: with one sample every
   * percentile is that sample; with two the median is the larger one; with
   * the ten samples 1..10 the median is 6 and p90 and p99 are both 10.
   */
  lemma PercentileBoundaries()
    ensures forall p: nat :: p < 100 ==> PercentileIndex(1, p) == 0
    ensures PercentileIndex(2, 50) == 1
    ensures PercentileIndex(10, 50) == 5 && PercentileIndex(10, 90) == 9 && PercentileIndex(10, 99) == 9
    ensures Sorted([1, 2, 3, 4, 5, 6, 7, 8, 9, 10])
    ensures Summary([1, 2, 3, 4, 5, 6, 7, 8, 9, 10])
         == Some(Stats(10, 55, 1, 10, 6, 10, 10))
  {
    var s := [1, 2, 3, 4, 5, 6, 7, 8, 9, 10];
    assert forall i :: 0 <= i < |s| ==> s[i] == i + 1;
    assert Sum([]) == 0;
    for k := 1 to 11
      invariant Sum(s[..k - 1]) == (k - 1) * k / 2
    {
      assert s[..k][..k - 1] == s[..k - 1];
    }
    assert s[..10] == s;
  }

  /** The position of a least sample among a[from..]. */
  method LeastFrom(a: array<int>, from: nat) returns (m: nat)
    requires from < a.Length
    ensures from <= m < a.Length
    ensures forall k :: from <= k < a.Length ==> a[m] <= a[k]
  {
    m := from;
    var j := from + 1;
    while j < a.Length
      invariant from <= m < a.Length && from < j <= a.Length
      invariant forall k :: from <= k < j ==> a[m] <= a[k]
    {
      if a[j] < a[m] {
        m := j;
      }
      j := j + 1;
    }
  }

  /** Exchanges two samples; the samples stay the same multiset. */
  method Swap(a: array<int>, i: nat, j: nat)
    requires i < a.Length && j < a.Length
    modifies a
    ensures a[..] == old(a[..])[i := old(a[j])][j := old(a[i])]
    ensures multiset(a[..]) == multiset(old(a[..]))
  {
    a[i], a[j] := a[j], a[i];
  }

  /** The first n samples are sorted and none of them exceeds a later sample. */
  ghost predicate SelectedPrefix(s: seq<int>, n: int)
  {
    && (forall x, y :: 0 <= x <= y < n && y < |s| ==> s[x] <= s[y])
    && (forall x, y :: 0 <= x < n <= y < |s| ==> s[x] <= s[y])
  }

  /** Swapping a least remaining sample into position i extends the selected prefix. */
  lemma SelectionStep(b: seq<int>, i: nat, m: nat)
    requires i <= m < |b|
    requires SelectedPrefix(b, i)
    requires forall k :: i <= k < |b| ==> b[m] <= b[k]
    ensures SelectedPrefix(b[i := b[m]][m := b[i]], i + 1)
  {
    var c := b[i := b[m]][m := b[i]];
    assert forall k :: 0 <= k < |c| && k != i && k != m ==> c[k] == b[k];
    assert c[i] == b[m] && c[m] == b[i];
  }

  /** std::sort on the sample vector, here a selection sort by swaps. */
  method SortInPlace(a: array<int>)
    modifies a
    ensures Sorted(a[..])
    ensures multiset(a[..]) == multiset(old(a[..]))
  {
    var i := 0;
    while i < a.Length
      invariant 0 <= i <= a.Length
      invariant SelectedPrefix(a[..], i)
      invariant multiset(a[..]) == multiset(old(a[..]))
    {
      ghost var b := a[..];
      var m := LeastFrom(a, i);
      SelectionStep(b, i, m);
      Swap(a, i, m);
      i := i + 1;
    }
    assert SelectedPrefix(a[..], a.Length);
  }

  /** std::accumulate over the samples, starting from 0. */
  method Accumulate(a: array<int>) returns (total: int)
    ensures total == Sum(a[..])
  {
    total := 0;
    var i := 0;
    while i < a.Length
      invariant 0 <= i <= a.Length
      invariant total == Sum(a[..i])
    {
      assert a[..i + 1][..i] == a[..i];
      total := total + a[i];
      i := i + 1;
    }
    assert a[..a.Length] == a[..];
  }

  /**
   * print_latency_stats without the printing: no samples gives none and
   * leaves them alone; otherwise the samples are sorted in place and the
   * summary is read off them.
   */
  method ReportLatency(samples: array<int>) returns (r: Option<Stats>)
    modifies samples
    ensures samples.Length == 0 ==> r == None && samples[..] == old(samples[..])
    ensures Sorted(samples[..]) && multiset(samples[..]) == multiset(old(samples[..]))
    ensures r == Summary(samples[..])
  {
    if samples.Length == 0 {
      return None;
    }
    SortInPlace(samples);
    var n := samples.Length;
    var sum := Accumulate(samples);
    var minimum, maximum := samples[0], samples[n - 1];
    var p50 := samples[PercentileIndex(n, 50)];
    var p90 := samples[PercentileIndex(n, 90)];
    var p99 := samples[PercentileIndex(n, 99)];
    r := Some(Stats(n, sum, minimum, maximum, p50, p90, p99));
  }
}

/** Latency statistics (include/latency_stats.hpp), over the reals. */
module Latency {

  /** A double as far as add_sample_us distinguishes it. */
  datatype Sample = Finite(us: real) | NotFinite

  datatype Summary = Summary(count: nat, min: real, mean: real, p50: real, p95: real, p99: real, max: real,
                             variance: real)  // the square of jitter_us

  // ---------------------------------------------------------------- sorting

  predicate Sorted(s: seq<real>)
  {
    forall i, j :: 0 <= i < j < |s| ==> s[i] <= s[j]
  }

  function Insert(x: real, s: seq<real>): (r: seq<real>)
    ensures |r| == |s| + 1
  {
    if s == [] || x <= s[0] then [x] + s else [s[0]] + Insert(x, s[1..])
  }

  /** The samples in ascending order, as std::sort leaves them. */
  function Sort(s: seq<real>): (r: seq<real>)
    ensures |r| == |s|
  {
    if s == [] then [] else Insert(s[0], Sort(s[1..]))
  }

  lemma {:induction false} InsertKeeps(x: real, s: seq<real>)
    ensures multiset(Insert(x, s)) == multiset(s) + multiset{x}
  {
    if s != [] && x > s[0] {
      InsertKeeps(x, s[1..]);
      assert s == [s[0]] + s[1..];
    }
  }

  lemma ConsSorted(x: real, s: seq<real>)
    requires Sorted(s) && forall y :: y in multiset(s) ==> x <= y
    ensures Sorted([x] + s)
  {
    assert forall i :: 0 <= i < |s| ==> s[i] in multiset(s);
  }

  lemma HeadIsLeast(s: seq<real>)
    requires Sorted(s) && s != []
    ensures forall y :: y in multiset(s) ==> s[0] <= y
  {
    assert forall y :: y in multiset(s) ==> y in s;
  }

  lemma {:induction false} InsertSorts(x: real, s: seq<real>)
    requires Sorted(s)
    ensures Sorted(Insert(x, s))
  {
    if s == [] {
    } else if x <= s[0] {
      HeadIsLeast(s);
      ConsSorted(x, s);
    } else {
      InsertSorts(x, s[1..]);
      InsertKeeps(x, s[1..]);
      HeadIsLeast(s);
      assert s == [s[0]] + s[1..];
      ConsSorted(s[0], Insert(x, s[1..]));
    }
  }

  lemma {:induction false} SortSorts(s: seq<real>)
    ensures Sorted(Sort(s)) && multiset(Sort(s)) == multiset(s)
  {
    hide Sorted, Insert;
    if s == [] {
      EmptySorted();
    } else {
      SortSorts(s[1..]);
      InsertSorts(s[0], Sort(s[1..]));
      InsertKeeps(s[0], Sort(s[1..]));
      assert s == [s[0]] + s[1..];
    }
  }

  lemma EmptySorted()
    ensures Sorted([])
  {
  }

  lemma TailOf(s: seq<real>)
    requires Sorted(s) && s != []
    ensures s == [s[0]] + s[1..] && s[0] in multiset(s)
    ensures multiset(s[1..]) == multiset(s) - multiset{s[0]} && Sorted(s[1..])
  {
    assert s == [s[0]] + s[1..];
  }

  /** A sorted sequence is determined by its elements, so any correct sort gives this result. */
  lemma {:induction false} SortedUnique(a: seq<real>, b: seq<real>)
    requires Sorted(a) && Sorted(b) && multiset(a) == multiset(b)
    ensures a == b
  {
    assert |multiset(a)| == |a| && |multiset(b)| == |b|;
    hide Sorted;
    if a != [] {
      HeadIsLeast(a);
      HeadIsLeast(b);
      TailOf(a);
      TailOf(b);
      assert a[0] == b[0];
      SortedUnique(a[1..], b[1..]);
    }
  }

  // ---------------------------------------------------------------- the summary

  function Sum(s: seq<real>): (r: real)
  {
    if s == [] then 0.0 else Sum(s[..|s| - 1]) + s[|s| - 1]
  }

  /** The sum of squared deviations from c. */
  function Spread(s: seq<real>, c: real): (r: real)
  {
    if s == [] then 0.0
    else
      var d := s[|s| - 1] - c;
      Spread(s[..|s| - 1], c) + d * d
  }

  function Ceil(x: real): (n: int)
    ensures n as real >= x > n as real - 1.0
  {
    -((-x).Floor)
  }

  /** percentile: linear interpolation between the two ranks around quantile * (n - 1). */
  function Percentile(s: seq<real>, quantile: real): (r: real)
    requires 0.0 <= quantile <= 1.0
  {
    if s == [] then 0.0
    else if |s| == 1 then s[0]
    else
      RankInRange(quantile, |s| - 1);
      AtRank(s, Rank(quantile, |s| - 1))
  }

  function Rank(quantile: real, last: nat): (r: real)
  {
    quantile * last as real
  }

  /** The interpolated sample at a real rank; both indexes are within the samples. */
  function AtRank(s: seq<real>, rank: real): (r: real)
    requires s != [] && 0.0 <= rank <= (|s| - 1) as real
  {
    var lower, upper := rank.Floor, Ceil(rank);
    var fraction := rank - lower as real;
    Between(s[lower], s[upper], fraction)
  }

  function Between(lo: real, hi: real, f: real): (r: real)
  {
    lo + (hi - lo) * f
  }

  lemma RankInRange(quantile: real, last: nat)
    requires 0.0 <= quantile <= 1.0
    ensures 0.0 <= Rank(quantile, last) <= last as real
  {
    MulMonotone(0.0, quantile, last as real);
    MulMonotone(quantile, 1.0, last as real);
  }

  lemma RankMonotone(q: real, q': real, last: nat)
    requires q <= q'
    ensures Rank(q, last) <= Rank(q', last)
  {
    MulMonotone(q, q', last as real);
  }

  lemma MulMonotone(x: real, y: real, z: real)
    requires x <= y && z >= 0.0
    ensures x * z <= y * z && z * x <= z * y
  {
    assert (y - x) * z >= 0.0;
  }

  function SummaryOf(samples: seq<real>): (r: Summary)
  {
    if samples == [] then Summary(0, 0.0, 0.0, 0.0, 0.0, 0.0, 0.0, 0.0)
    else
      var s := Sort(samples);
      var n := |s| as real;
      var mean := Sum(s) / n;
      Summary(|s|, s[0], mean, Percentile(s, 0.50), Percentile(s, 0.95), Percentile(s, 0.99), s[|s| - 1],
              Spread(s, mean) / n)
  }

  class LatencyStats {
    var samples: seq<real>

    constructor ()
      ensures samples == []
    {
      samples := [];
    }

    method AddSampleUs(value: Sample)
      modifies this
      ensures samples == old(samples) + (if value.Finite? && value.us >= 0.0 then [value.us] else [])
    {
      if value.NotFinite? || value.us < 0.0 {
        return;
      }
      samples := samples + [value.us];
    }

    method Snapshot() returns (r: Summary)
      ensures r == SummaryOf(samples)
    {
      hide Sort, Percentile, Sum, Spread;
      if samples == [] {
        return Summary(0, 0.0, 0.0, 0.0, 0.0, 0.0, 0.0, 0.0);
      }
      var s := Sort(samples);
      var n := |s| as real;
      var sum := 0.0;
      EmptySums(0.0);
      for i := 0 to |s|
        invariant sum == Sum(s[..i])
      {
        SumStep(s, i, 0.0);
        sum := sum + s[i];
      }
      assert s[..|s|] == s;
      var mean := sum / n;
      var squares := 0.0;
      EmptySums(mean);
      for i := 0 to |s|
        invariant squares == Spread(s[..i], mean)
      {
        SumStep(s, i, mean);
        var delta := s[i] - mean;
        squares := squares + delta * delta;
      }
      r := Summary(|s|, s[0], mean, Percentile(s, 0.50), Percentile(s, 0.95), Percentile(s, 0.99), s[|s| - 1],
                   squares / n);
    }
  }

  lemma EmptySums(c: real)
    ensures Sum([]) == 0.0 && Spread([], c) == 0.0
  {
  }

  lemma SumStep(s: seq<real>, i: nat, c: real)
    requires i < |s|
    ensures Sum(s[..i + 1]) == Sum(s[..i]) + s[i]
    ensures Spread(s[..i + 1], c) == Spread(s[..i], c) + (s[i] - c) * (s[i] - c)
  {
    assert s[..i + 1][..i] == s[..i];
  }

  // ---------------------------------------------------------------- what the summary guarantees

  lemma Interpolated(a: real, b: real, f: real)
    requires a <= b && 0.0 <= f <= 1.0
    ensures a <= Between(a, b, f) <= b
  {
    MulMonotone(0.0, f, b - a);
    MulMonotone(f, 1.0, b - a);
  }

  /** An interpolated sample lies between its two neighbours. */
  lemma AtRankBetween(s: seq<real>, rank: real)
    requires Sorted(s) && s != [] && 0.0 <= rank <= (|s| - 1) as real
    ensures s[rank.Floor] <= AtRank(s, rank) <= s[Ceil(rank)]
    ensures s[0] <= AtRank(s, rank) <= s[|s| - 1]
  {
    hide Between;
    var lower, upper := rank.Floor, Ceil(rank);
    RankBounds(rank, |s| - 1);
    SortedAt(s, 0, lower);
    SortedAt(s, lower, upper);
    SortedAt(s, upper, |s| - 1);
    Interpolated(s[lower], s[upper], rank - lower as real);
  }

  /** Both indexes of a rank are within the samples, and the fraction is one. */
  lemma RankBounds(rank: real, last: nat)
    requires 0.0 <= rank <= last as real
    ensures 0 <= rank.Floor <= Ceil(rank) <= last && 0.0 <= rank - rank.Floor as real <= 1.0
  {
  }

  lemma SortedAt(s: seq<real>, i: nat, j: nat)
    requires Sorted(s) && i <= j < |s|
    ensures s[i] <= s[j]
  {
  }

  /** Interpolation grows with the rank. */
  lemma AtRankMonotone(s: seq<real>, a: real, b: real)
    requires Sorted(s) && s != [] && 0.0 <= a <= b <= (|s| - 1) as real
    ensures AtRank(s, a) <= AtRank(s, b)
  {
    AtRankBetween(s, a);
    AtRankBetween(s, b);
    var k := a.Floor;
    if k < b.Floor {
      assert Ceil(a) <= b.Floor;
      assert s[Ceil(a)] <= s[b.Floor];
    } else if a == k as real {
      AtWholeRank(s, a);
    } else {
      assert b.Floor == k && Ceil(a) == k + 1 == Ceil(b);
      WithinCell(s, a, k);
      WithinCell(s, b, k);
      hide AtRank;
      CellMonotone(s[k], s[k + 1], a - k as real, b - k as real);
    }
  }

  lemma WithinCell(s: seq<real>, rank: real, k: nat)
    requires s != [] && 0.0 <= rank <= (|s| - 1) as real && rank.Floor == k && Ceil(rank) == k + 1
    ensures k + 1 < |s| && AtRank(s, rank) == Between(s[k], s[k + 1], rank - k as real)
  {
  }

  lemma CellMonotone(lo: real, hi: real, f: real, g: real)
    requires lo <= hi && f <= g
    ensures Between(lo, hi, f) <= Between(lo, hi, g)
  {
    MulMonotone(f, g, hi - lo);
  }

  lemma AtWholeRank(s: seq<real>, a: real)
    requires s != [] && 0.0 <= a <= (|s| - 1) as real && a == a.Floor as real
    ensures AtRank(s, a) == s[a.Floor]
  {
    assert Ceil(a) == a.Floor;
  }

  /** Percentiles grow with the quantile, and stay between the extremes. */
  lemma PercentileMonotone(s: seq<real>, q: real, q': real)
    requires Sorted(s) && s != [] && 0.0 <= q <= q' <= 1.0
    ensures s[0] <= Percentile(s, q) <= Percentile(s, q') <= s[|s| - 1]
  {
    hide Sorted, AtRank, Rank;
    if |s| >= 2 {
      var n := |s| - 1;
      RankInRange(q, n);
      RankInRange(q', n);
      RankMonotone(q, q', n);
      AtRankMonotone(s, Rank(q, n), Rank(q', n));
      AtRankBetween(s, Rank(q, n));
      AtRankBetween(s, Rank(q', n));
    }
  }

  lemma {:induction false} SumBounds(s: seq<real>, lo: real, hi: real)
    requires forall i :: 0 <= i < |s| ==> lo <= s[i] <= hi
    ensures lo * |s| as real <= Sum(s) <= hi * |s| as real
  {
    if s != [] {
      var n := |s| - 1;
      SumBounds(s[..n], lo, hi);
      assert lo * |s| as real == lo * n as real + lo;
      assert hi * |s| as real == hi * n as real + hi;
    }
  }

  lemma SquareBound(x: real, c: real, lo: real, hi: real)
    requires lo <= x <= hi
    ensures (x - c) * (x - c) <= (hi + lo - 2.0 * c) * x + c * c - hi * lo
  {
    MulMonotone(0.0, hi - x, x - lo);
    assert (hi - x) * (x - lo) == hi * x - hi * lo - x * x + x * lo;
    assert (x - c) * (x - c) == x * x - 2.0 * c * x + c * c;
    assert (hi + lo - 2.0 * c) * x == hi * x + lo * x - 2.0 * c * x;
  }

  lemma {:induction false} SpreadBound(s: seq<real>, c: real, lo: real, hi: real)
    requires forall i :: 0 <= i < |s| ==> lo <= s[i] <= hi
    ensures Spread(s, c) <= (hi + lo - 2.0 * c) * Sum(s) + (c * c - hi * lo) * |s| as real
  {
    if s != [] {
      var n := |s| - 1;
      var x, k, d := s[n], hi + lo - 2.0 * c, c * c - hi * lo;
      SpreadBound(s[..n], c, lo, hi);
      SquareBound(x, c, lo, hi);
      Distribute(k, Sum(s[..n]), x);
      Distribute(d, n as real, 1.0);
      assert |s| as real == n as real + 1.0;
    }
  }

  lemma Distribute(k: real, x: real, y: real)
    ensures k * (x + y) == k * x + k * y
  {
  }

  lemma DivisionBounds(x: real, n: real, lo: real, hi: real)
    requires n > 0.0 && lo * n <= x <= hi * n
    ensures lo <= x / n <= hi
  {
    var q := x / n;
    assert q * n == x;
    Cancel(lo, q, n);
    Cancel(q, hi, n);
  }

  lemma Cancel(x: real, y: real, n: real)
    requires n > 0.0 && x * n <= y * n
    ensures x <= y
  {
    assert (y - x) * n >= 0.0;
  }

  /** Mean and variance from the bounds on the two sums. */
  lemma MomentsFrom(sum: real, spread: real, n: real, m: real, lo: real, hi: real)
    requires n > 0.0 && m == sum / n
    requires lo * n <= sum <= hi * n
    requires spread <= (hi + lo - 2.0 * m) * sum + (m * m - hi * lo) * n
    ensures lo <= m <= hi && spread / n <= (hi - m) * (m - lo)
  {
    DivisionBounds(sum, n, lo, hi);
    var bound := (hi - m) * (m - lo);
    var k := hi + lo - 2.0 * m;
    assert sum == m * n;
    assert k * sum == (k * m) * n;
    assert k * m + (m * m - hi * lo) == bound;
    assert spread <= bound * n;
    var v := spread / n;
    assert v * n == spread;
    Cancel(v, bound, n);
  }

  lemma MomentBounds(s: seq<real>)
    requires s != [] && Sorted(s)
    ensures var n, lo, hi := |s| as real, s[0], s[|s| - 1];
            var mean := Sum(s) / n;
            lo <= mean <= hi && Spread(s, mean) / n <= (hi - mean) * (mean - lo)
  {
    hide Sum, Spread;
    var n, lo, hi := |s| as real, s[0], s[|s| - 1];
    var mean := Sum(s) / n;
    SumBounds(s, lo, hi);
    SpreadBound(s, mean, lo, hi);
    MomentsFrom(Sum(s), Spread(s, mean), n, mean, lo, hi);
  }

  /** For any samples: min <= p50 <= p95 <= p99 <= max, the mean lies between min and max, and the variance
      is at most (max - mean) * (mean - min). */
  lemma SummaryIsOrdered(samples: seq<real>)
    requires samples != []
    ensures var r := SummaryOf(samples);
            && r.min <= r.p50 <= r.p95 <= r.p99 <= r.max
            && r.min <= r.mean <= r.max
            && r.variance <= (r.max - r.mean) * (r.mean - r.min)
  {
    hide Sorted, Sort, Percentile, Sum, Spread;
    var s := Sort(samples);
    SortSorts(samples);
    PercentileMonotone(s, 0.50, 0.95);
    PercentileMonotone(s, 0.95, 0.99);
    MomentBounds(s);
  }

  /** The summary does not depend on the order in which the samples were added. */
  lemma SummaryIgnoresOrder(a: seq<real>, b: seq<real>)
    requires multiset(a) == multiset(b)
    ensures SummaryOf(a) == SummaryOf(b)
  {
    hide Sort, Percentile, Sum, Spread;
    assert |multiset(a)| == |a| && |multiset(b)| == |b|;
    SortSorts(a);
    SortSorts(b);
    SortedUnique(Sort(a), Sort(b));
  }

  // ---------------------------------------------------------------- what the numbers are

  /** At the quantile whose rank lies a fraction f of the way from the k-th sample to the next, the percentile lies
      the same fraction of the way between them; at f = 0 it is the k-th sample itself. */
  lemma PercentileInterpolates(s: seq<real>, q: real, k: nat, f: real)
    requires k + 1 < |s| && 0.0 <= q <= 1.0 && 0.0 <= f <= 1.0
    requires q * (|s| - 1) as real == k as real + f
    ensures Percentile(s, q) == (1.0 - f) * s[k] + f * s[k + 1]
  {
    var rank := k as real + f;
    assert Rank(q, |s| - 1) == rank;
    RankInRange(q, |s| - 1);
    if f == 0.0 {
      assert rank.Floor == k;
      AtWholeRank(s, rank);
    } else if f == 1.0 {
      assert rank.Floor == k + 1;
      AtWholeRank(s, rank);
    } else {
      assert rank.Floor == k && Ceil(rank) == k + 1;
      WithinCell(s, rank, k);
      hide AtRank;
      assert Between(s[k], s[k + 1], f) == (1.0 - f) * s[k] + f * s[k + 1];
    }
  }

  lemma {:induction false} SumConcat(a: seq<real>, b: seq<real>)
    ensures Sum(a + b) == Sum(a) + Sum(b)
  {
    if b == [] {
      assert a + b == a;
    } else {
      SumConcat(a, b[..|b| - 1]);
      assert (a + b)[..|a + b| - 1] == a + b[..|b| - 1];
    }
  }

  lemma SumOne(x: real)
    ensures Sum([x]) == x
  {
    assert [x][..0] == [];
  }

  function Squares(s: seq<real>): (r: seq<real>)
    ensures |r| == |s|
  {
    seq(|s|, i requires 0 <= i < |s| => Square(s[i]))
  }

  function Square(x: real): (y: real)
  {
    x * x
  }

  lemma SquaresConcat(a: seq<real>, b: seq<real>)
    ensures Squares(a + b) == Squares(a) + Squares(b)
  {
    hide Square;
  }

  lemma SquaresOne(x: real)
    ensures Squares([x]) == [Square(x)]
  {
    hide Square;
  }

  /** Both sums of a sequence with one more sample in front. */
  lemma SumsCons(x: real, s: seq<real>)
    ensures Sum([x] + s) == x + Sum(s) && Sum(Squares([x] + s)) == Square(x) + Sum(Squares(s))
  {
    hide Sum, Square, Squares;
    SumOne(x);
    SumOne(Square(x));
    SumConcat([x], s);
    SquaresOne(x);
    SquaresConcat([x], s);
    SumConcat(Squares([x]), Squares(s));
  }

  lemma SquareOfDifference(x: real, c: real)
    ensures (x - c) * (x - c) == Square(x) - 2.0 * c * x + c * c
  {
  }

  /** The sum of squared deviations, from the sums of the samples and of their squares. */
  lemma {:induction false} SpreadExpands(s: seq<real>, c: real)
    ensures Spread(s, c) == Sum(Squares(s)) - 2.0 * c * Sum(s) + |s| as real * (c * c)
  {
    if s == [] {
      assert Squares(s) == [];
    } else {
      var n := |s| - 1;
      var front, x := s[..n], s[n];
      SpreadExpands(front, c);
      SquareOfDifference(x, c);
      hide Square;
      assert s == front + [x];
      SquaresConcat(front, [x]);
      SquaresOne(x);
      SumConcat(Squares(front), [Square(x)]);
      SumOne(Square(x));
      assert 2.0 * c * (Sum(front) + x) == 2.0 * c * Sum(front) + 2.0 * c * x;
      assert |s| as real * (c * c) == n as real * (c * c) + c * c;
    }
  }

  lemma {:induction false} InsertSums(x: real, s: seq<real>)
    ensures Sum(Insert(x, s)) == x + Sum(s) && Sum(Squares(Insert(x, s))) == Square(x) + Sum(Squares(s))
  {
    hide Sum, Squares, Square;
    if s == [] || x <= s[0] {
      SumsCons(x, s);
    } else {
      InsertSums(x, s[1..]);
      assert s == [s[0]] + s[1..];
      SumsCons(s[0], s[1..]);
      SumsCons(s[0], Insert(x, s[1..]));
    }
  }

  /** Sorting keeps both sums. */
  lemma {:induction false} SortSums(s: seq<real>)
    ensures Sum(Sort(s)) == Sum(s) && Sum(Squares(Sort(s))) == Sum(Squares(s))
  {
    hide Sum, Insert, Squares, Square;
    if s != [] {
      SortSums(s[1..]);
      InsertSums(s[0], Sort(s[1..]));
      assert s == [s[0]] + s[1..];
      SumsCons(s[0], s[1..]);
    }
  }

  /** Mean and variance of n samples with these sums of the samples and of their squares. */
  predicate AreMoments(mean: real, variance: real, n: real, sum: real, squares: real)
  {
    mean * n == sum && variance * n == squares - n * (mean * mean)
  }

  lemma MomentsOf(sum: real, squares: real, spread: real, n: real, mean: real)
    requires n > 0.0 && mean == sum / n
    requires spread == squares - 2.0 * mean * sum + n * (mean * mean)
    ensures AreMoments(mean, spread / n, n, sum, squares)
  {
    assert mean * n == sum;
    assert mean * sum == n * (mean * mean);
    assert (spread / n) * n == spread;
  }

  lemma SortedMoments(s: seq<real>)
    requires s != []
    ensures var n := |s| as real;
            AreMoments(Sum(s) / n, Spread(s, Sum(s) / n) / n, n, Sum(s), Sum(Squares(s)))
  {
    hide Sum, Spread, Squares, AreMoments;
    var n := |s| as real;
    var mean := Sum(s) / n;
    SpreadExpands(s, mean);
    MomentsOf(Sum(s), Sum(Squares(s)), Spread(s, mean), n, mean);
  }

  /** The summary from the samples themselves: how many, the least, the greatest, the mean, and the variance as mean
      square less square mean. */
  lemma SummaryMeans(samples: seq<real>)
    requires samples != []
    ensures var r := SummaryOf(samples);
            && r.count == |samples|
            && r.min in samples && r.max in samples && (forall x :: x in samples ==> r.min <= x <= r.max)
            && AreMoments(r.mean, r.variance, |samples| as real, Sum(samples), Sum(Squares(samples)))
  {
    hide Sort, Sum, Spread, Percentile, Sorted, Squares, AreMoments;
    var s := Sort(samples);
    SortSorts(samples);
    SortSums(samples);
    Extremes(samples, s);
    SortedMoments(s);
  }

  lemma Extremes(samples: seq<real>, s: seq<real>)
    requires s != [] && Sorted(s) && multiset(s) == multiset(samples)
    ensures s[0] in samples && s[|s| - 1] in samples
    ensures forall x :: x in samples ==> s[0] <= x <= s[|s| - 1]
  {
    assert s[0] in multiset(s) && s[|s| - 1] in multiset(s);
    forall x | x in samples ensures s[0] <= x <= s[|s| - 1] {
      assert x in multiset(samples);
      assert x in s;
    }
  }

  /** The three percentiles are the ones of 50, 95 and 99 percent of the sorted samples. */
  lemma SummaryInterpolates(samples: seq<real>, k: nat, f: real)
    requires k + 1 < |samples| && 0.0 <= f <= 1.0
    ensures var r, s, last := SummaryOf(samples), Sort(samples), (|samples| - 1) as real;
            var value := (1.0 - f) * s[k] + f * s[k + 1];
            && (last / 2.0 == k as real + f ==> r.p50 == value)
            && (19.0 * last / 20.0 == k as real + f ==> r.p95 == value)
            && (99.0 * last / 100.0 == k as real + f ==> r.p99 == value)
  {
    hide Sort, Percentile, Sum, Spread;
    var s, last := Sort(samples), (|samples| - 1) as real;
    if last / 2.0 == k as real + f {
      assert 0.50 * last == last / 2.0;
      PercentileInterpolates(s, 0.50, k, f);
    }
    if 19.0 * last / 20.0 == k as real + f {
      assert 0.95 * last == 19.0 * last / 20.0;
      PercentileInterpolates(s, 0.95, k, f);
    }
    if 99.0 * last / 100.0 == k as real + f {
      assert 0.99 * last == 99.0 * last / 100.0;
      PercentileInterpolates(s, 0.99, k, f);
    }
  }
}

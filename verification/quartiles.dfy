/** Quartiles and IQR fences of the outlier filter inside `AnalyzeMods`.

    The source computes the quartile position `q * (n + 1) / 4` with integer
    operands, so the division truncates and the interpolation weight `alpha`
    is always 0: every quartile is one of the sample values. */
module Quartiles {
  import opened Sorting

  /** The 1-based rank `k` the source computes for quartile `q` of `n` values. */
  function QuartileRank(n: nat, q: nat): nat
  {
    q * (n + 1) / 4
  }

  /** Quartile `q` of the ascending values `d`, as the source evaluates it:
      `d[k-1] + alpha * (d[k] - d[k-1])`. Both `d[k-1]` and `d[k]` are read,
      so the source needs `1 <= k < |d|`. */
  function Quartile(d: seq<int>, q: nat): (r: int)
    requires Ascending(d)
    requires 1 <= QuartileRank(|d|, q) < |d|
    ensures r == d[QuartileRank(|d|, q) - 1]
    ensures r in d
    ensures forall i :: 0 <= i < QuartileRank(|d|, q) ==> d[i] <= r
    ensures forall i :: QuartileRank(|d|, q) - 1 <= i < |d| ==> r <= d[i]
  {
    var position := q * (|d| + 1) / 4;
    var k := position;  // truncating an integral value leaves it unchanged
    var alpha := position - k;
    d[k - 1] + alpha * (d[k] - d[k - 1])
  }

  /** Both indices read for the first and the third quartile are in range
      exactly when there are at least four values; for fewer the third
      quartile would read past the end. */
  lemma QuartileRanksInRange(n: nat)
    ensures (1 <= QuartileRank(n, 1) < n && 1 <= QuartileRank(n, 3) < n) <==> n >= 4
  {
    if n >= 4 {
      assert 1 <= (n + 1) / 4 < n;
      assert 3 * (n + 1) / 4 < n by {
        assert 3 * (n + 1) < 4 * n;
      }
      assert 1 <= 3 * (n + 1) / 4;
    } else {
      assert QuartileRank(n, 3) >= n by {
        if n == 0 { assert 3 * (0 + 1) / 4 == 0; }
        else if n == 1 { assert 3 * (1 + 1) / 4 == 1; }
        else if n == 2 { assert 3 * (2 + 1) / 4 == 2; }
        else { assert 3 * (3 + 1) / 4 == 3; }
      }
    }
  }

  /** Lower fence `q1 - 1.5 * (q3 - q1)`, in exact arithmetic: twice the
      interquartile range below the midpoint of the quartiles. */
  function LowerFence(q1: int, q3: int): (f: real)
    ensures f == (q1 + q3) as real / 2.0 - 2.0 * (q3 - q1) as real
    ensures q1 <= q3 ==> f <= q1 as real
  {
    q1 as real - 1.5 * ((q3 - q1) as real)
  }

  /** Upper fence `q3 + 1.5 * (q3 - q1)`, in exact arithmetic: twice the
      interquartile range above the midpoint of the quartiles. */
  function UpperFence(q1: int, q3: int): (f: real)
    ensures f == (q1 + q3) as real / 2.0 + 2.0 * (q3 - q1) as real
    ensures q1 <= q3 ==> q3 as real <= f
  {
    q3 as real + 1.5 * ((q3 - q1) as real)
  }

  /** The source's `IsOutlier`: a value strictly outside the fences. Doubling
      both sides keeps the comparison in the integers. */
  predicate IsOutlier(x: int, q1: int, q3: int): (b: bool)
    ensures b <==> 2 * x < 2 * q1 - 3 * (q3 - q1) || 2 * x > 2 * q3 + 3 * (q3 - q1)
  {
    x as real < LowerFence(q1, q3) || x as real > UpperFence(q1, q3)
  }

  /** Values between the two quartiles are never outliers. */
  lemma BetweenQuartilesNotOutlier(x: int, q1: int, q3: int)
    requires q1 <= x <= q3
    ensures !IsOutlier(x, q1, q3)
  {
  }

  /** The quartiles the outlier filter uses. */
  datatype Fences = Fences(q1: int, q3: int)

  /** First and third quartile of `counts` (in any order), sorted as the source
      sorts them before taking quartiles. */
  function FencesOf(counts: seq<int>): (f: Fences)
    requires |counts| >= 4
    ensures f.q1 <= f.q3
    ensures f.q1 in counts && f.q3 in counts
    ensures !IsOutlier(f.q1, f.q1, f.q3) && !IsOutlier(f.q3, f.q1, f.q3)
  {
    var d := SortAscending(counts);
    QuartileRanksInRange(|d|);
    var q3 := Quartile(d, 3);
    var q1 := Quartile(d, 1);
    assert q1 in multiset(d) && q3 in multiset(d);
    assert q1 <= q3 by {
      assert QuartileRank(|d|, 1) <= QuartileRank(|d|, 3);
    }
    BetweenQuartilesNotOutlier(q1, q1, q3);
    BetweenQuartilesNotOutlier(q3, q1, q3);
    Fences(q1, q3)
  }

  /** The fences depend only on which values were sampled, not on their order. */
  lemma FencesIgnoreOrder(a: seq<int>, b: seq<int>)
    requires |a| >= 4
    requires multiset(a) == multiset(b)
    ensures FencesOf(a) == FencesOf(b)
  {
    assert |a| == |multiset(a)| == |multiset(b)| == |b|;
    AscendingUnique(SortAscending(a), SortAscending(b));
  }

  /** The fences can be read off any ascending arrangement of the counts. */
  lemma FencesFromSorted(counts: seq<int>, d: seq<int>)
    requires |counts| >= 4
    requires Ascending(d) && multiset(d) == multiset(counts)
    ensures 1 <= QuartileRank(|d|, 1) < |d| && 1 <= QuartileRank(|d|, 3) < |d|
    ensures FencesOf(counts) == Fences(Quartile(d, 1), Quartile(d, 3))
  {
    assert |counts| == |multiset(counts)| == |multiset(d)| == |d|;
    QuartileRanksInRange(|d|);
    AscendingUnique(SortAscending(counts), d);
  }

  /** The quartiles of the ascending values 9, 10, 11, 12, 100 are the first and the fourth value. */
  lemma SortedExampleQuartiles(sorted: seq<int>)
    requires sorted == [9, 10, 11, 12, 100]
    ensures Ascending(sorted)
    ensures 1 <= QuartileRank(|sorted|, 1) < |sorted| && 1 <= QuartileRank(|sorted|, 3) < |sorted|
    ensures Quartile(sorted, 1) == 9 && Quartile(sorted, 3) == 12
  {
  }

  /** Worked example: in 10, 12, 11, 100, 9 the quartiles are 9 and 12. */
  lemma OutlierExampleFences(counts: seq<int>)
    requires counts == [10, 12, 11, 100, 9]
    ensures FencesOf(counts) == Fences(9, 12)
  {
    var sorted: seq<int> :| sorted == [9, 10, 11, 12, 100];
    assert multiset(counts) == multiset(sorted);
    SortedExampleQuartiles(sorted);
    FencesFromSorted(counts, sorted);
  }

  /** Worked example, continued: with quartiles 9 and 12 the fences are 4.5
      and 16.5, and of 10, 12, 11, 100, 9 only 100 is an outlier. */
  lemma OutlierExampleFilter(counts: seq<int>)
    requires counts == [10, 12, 11, 100, 9]
    ensures LowerFence(9, 12) == 4.5 && UpperFence(9, 12) == 16.5
    ensures forall x :: x in counts ==> (IsOutlier(x, 9, 12) <==> x == 100)
  {
  }
}

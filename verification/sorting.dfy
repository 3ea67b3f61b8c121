/** Stable insertion sorting used by the report: `OrderByDescending` on a key,
    and `OrderBy` on plain integers. */
module Sorting {

  /** Keys of `s` never increase from left to right. */
  ghost predicate NonIncreasingBy<T>(s: seq<T>, key: T -> int)
  {
    forall i, j :: 0 <= i < j < |s| ==> key(s[i]) >= key(s[j])
  }

  /** `s` is sorted in ascending order. */
  ghost predicate Ascending(s: seq<int>)
  {
    forall i, j :: 0 <= i < j < |s| ==> s[i] <= s[j]
  }

  /** Number of leading elements of `s` whose key is strictly greater than `key(x)`:
      the slot where a stable descending sort puts `x` when `x` came earlier
      in the input than every element of `s`. */
  function InsertPosition<T>(x: T, s: seq<T>, key: T -> int): (p: nat)
    ensures p <= |s|
    ensures forall i :: 0 <= i < p ==> key(s[i]) > key(x)
    ensures p < |s| ==> key(s[p]) <= key(x)
  {
    if |s| == 0 || key(s[0]) <= key(x) then 0
    else 1 + InsertPosition(x, s[1..], key)
  }

  /** Inserts `x` into the descending sequence `s`, ahead of every element with an equal key. */
  function InsertDescendingBy<T>(x: T, s: seq<T>, key: T -> int): (r: seq<T>)
    requires NonIncreasingBy(s, key)
    ensures NonIncreasingBy(r, key)
    ensures multiset(r) == multiset(s) + multiset{x}
    ensures |r| == |s| + 1
  {
    var p := InsertPosition(x, s, key);
    InsertKeepsOrder(x, s, key, p);
    InsertMultiset(x, s, p);
    s[..p] + [x] + s[p..]
  }

  /** Inserting `x` anywhere adds one copy of it to the multiset. */
  lemma InsertMultiset<T>(x: T, s: seq<T>, p: nat)
    requires p <= |s|
    ensures multiset(s[..p] + [x] + s[p..]) == multiset(s) + multiset{x}
  {
    assert s == s[..p] + s[p..];
  }

  /** Putting `x` after the elements with larger keys and before the rest keeps
      a descending sequence descending. */
  lemma InsertKeepsOrder<T>(x: T, s: seq<T>, key: T -> int, p: nat)
    requires NonIncreasingBy(s, key) && p <= |s|
    requires forall i :: 0 <= i < p ==> key(s[i]) > key(x)
    requires p < |s| ==> key(s[p]) <= key(x)
    ensures NonIncreasingBy(s[..p] + [x] + s[p..], key)
  {
    var r := s[..p] + [x] + s[p..];
    assert forall i :: 0 <= i < p ==> r[i] == s[i];
    assert r[p] == x;
    assert forall i :: p < i < |r| ==> r[i] == s[i - 1];
    forall i, j | 0 <= i < j < |r|
      ensures key(r[i]) >= key(r[j])
    {
      if j < p {
        assert key(s[i]) >= key(s[j]);
      } else if j == p {
        assert key(s[i]) > key(x);
      } else if i < p {
        assert key(s[i]) >= key(s[j - 1]);
      } else if i == p {
        assert key(s[p]) >= key(s[j - 1]);
      } else {
        assert key(s[i - 1]) >= key(s[j - 1]);
      }
    }
  }

  /** Stable descending sort by `key` (LINQ `OrderByDescending`): elements with
      equal keys keep their input order. */
  function SortDescendingBy<T>(s: seq<T>, key: T -> int): (r: seq<T>)
    ensures NonIncreasingBy(r, key)
    ensures multiset(r) == multiset(s)
    ensures |r| == |s|
  {
    if |s| == 0 then []
    else
      assert s == [s[0]] + s[1..];
      InsertDescendingBy(s[0], SortDescendingBy(s[1..], key), key)
  }

  function Negate(x: int): int { -x }

  /** Ascending sort of integers (LINQ `OrderBy`), as a stable descending sort on the negated value. */
  function SortAscending(s: seq<int>): (r: seq<int>)
    ensures Ascending(r)
    ensures multiset(r) == multiset(s)
    ensures |r| == |s|
  {
    var r := SortDescendingBy(s, Negate);
    assert forall i, j :: 0 <= i < j < |r| ==> Negate(r[i]) >= Negate(r[j]);
    r
  }

  /** Two ascending sequences with the same elements are equal: which sorting
      algorithm produced them does not matter. */
  lemma {:induction false} AscendingUnique(a: seq<int>, b: seq<int>)
    requires Ascending(a) && Ascending(b)
    requires multiset(a) == multiset(b)
    ensures a == b
  {
    assert |a| == |multiset(a)| == |multiset(b)| == |b|;
    if |a| > 0 {
      SameHead(a, b);
      DropHead(a);
      DropHead(b);
      assert Ascending(a[1..]) && Ascending(b[1..]);
      AscendingUnique(a[1..], b[1..]);
      assert a == [a[0]] + a[1..] && b == [b[0]] + b[1..];
    }
  }

  /** Ascending sequences with the same elements start with the same (least) element. */
  lemma SameHead(a: seq<int>, b: seq<int>)
    requires Ascending(a) && Ascending(b)
    requires multiset(a) == multiset(b) && |a| > 0 && |b| > 0
    ensures a[0] == b[0]
  {
    assert a[0] in multiset(b);
    var j :| 0 <= j < |b| && b[j] == a[0];
    assert b[0] in multiset(a);
    var k :| 0 <= k < |a| && a[k] == b[0];
  }

  /** Dropping the first element removes one copy of it from the multiset. */
  lemma DropHead(a: seq<int>)
    requires |a| > 0
    ensures multiset(a[1..]) == multiset(a) - multiset{a[0]}
  {
    assert a == [a[0]] + a[1..];
  }
}

/** Sequence helpers that stand for the pandas and numpy column operations the
    statistics layer uses: `unique` (distinct values in order of first
    appearance), sorting distinct ids ascending, counting a value, integer and
    real sums, running sums (`cumsum`), column minimum and maximum, and sorting
    (key, score) rows by descending score followed by `head(k)`. */
module Seqs {

  datatype Option<T> = None | Some(value: T)

  predicate Distinct(s: seq<int>) {
    forall i, j :: 0 <= i < j < |s| ==> s[i] != s[j]
  }

  predicate StrictlyIncreasing(s: seq<int>) {
    forall i, j :: 0 <= i < j < |s| ==> s[i] < s[j]
  }

  // ---------------------------------------------------------------------------
  // unique: distinct values in order of first appearance
  // ---------------------------------------------------------------------------

  /** Appends x to acc unless it is already there. */
  function AddNew(acc: seq<int>, x: int): seq<int> {
    if x in acc then acc else acc + [x]
  }

  /** The distinct values of s, each at the place it first appears. */
  function Unique(s: seq<int>): (r: seq<int>)
    ensures Distinct(r)
    ensures forall x :: x in r <==> x in s
    ensures |r| <= |s|
    ensures Distinct(s) ==> r == s
  {
    if s == [] then [] else AddNew(Unique(s[..|s| - 1]), s[|s| - 1])
  }

  /** The position at which x first occurs in s. */
  function FirstIndex(s: seq<int>, x: int): (i: nat)
    requires x in s
    ensures i < |s| && s[i] == x
    ensures forall j :: 0 <= j < i ==> s[j] != x
  {
    if s[0] == x then 0 else 1 + FirstIndex(s[1..], x)
  }

  lemma FirstIndexExtend(s: seq<int>, x: int, y: int)
    requires y in s
    ensures FirstIndex(s + [x], y) == FirstIndex(s, y)
  {
    var k := FirstIndex(s, y);
    assert (s + [x])[k] == y;
  }

  /** Unique lists the values in the order in which they first appear in s. */
  lemma {:induction false} UniqueFirstAppearanceOrder(s: seq<int>)
    ensures forall i, j :: 0 <= i < j < |Unique(s)| ==>
      FirstIndex(s, Unique(s)[i]) < FirstIndex(s, Unique(s)[j])
  {
    if s != [] {
      var p, x := s[..|s| - 1], s[|s| - 1];
      assert s == p + [x];
      UniqueFirstAppearanceOrder(p);
      forall y | y in p
        ensures FirstIndex(s, y) == FirstIndex(p, y) < |p|
      {
        FirstIndexExtend(p, x, y);
      }
      if x !in p {
        assert FirstIndex(s, x) == |p|;
      }
    }
  }

  // ---------------------------------------------------------------------------
  // sort_values on distinct ids
  // ---------------------------------------------------------------------------

  function InsertAscending(x: int, s: seq<int>): (r: seq<int>)
    requires StrictlyIncreasing(s) && x !in s
    ensures StrictlyIncreasing(r)
    ensures forall y :: y in r <==> y == x || y in s
    ensures |r| == |s| + 1
  {
    if s == [] || x < s[0] then [x] + s
    else
      var t := InsertAscending(x, s[1..]);
      PrependIncreasing(s[0], t);
      [s[0]] + t
  }

  lemma PrependIncreasing(a: int, t: seq<int>)
    requires StrictlyIncreasing(t) && forall y :: y in t ==> a < y
    ensures StrictlyIncreasing([a] + t)
  {
    var r := [a] + t;
    forall i, j | 0 <= i < j < |r|
      ensures r[i] < r[j]
    {
      assert r[j] == t[j - 1] && t[j - 1] in t;
      if i > 0 {
        assert r[i] == t[i - 1];
      }
    }
  }

  function SortDistinct(s: seq<int>): (r: seq<int>)
    requires Distinct(s)
    ensures StrictlyIncreasing(r)
    ensures forall x :: x in r <==> x in s
    ensures |r| == |s|
  {
    if s == [] then []
    else InsertAscending(s[|s| - 1], SortDistinct(s[..|s| - 1]))
  }

  /** The distinct values of s in ascending order. */
  function SortedDistinct(s: seq<int>): (r: seq<int>)
    ensures StrictlyIncreasing(r)
    ensures forall x :: x in r <==> x in s
    ensures |r| == |Unique(s)|
    ensures Distinct(s) ==> |r| == |s|
  {
    SortDistinct(Unique(s))
  }

  lemma StrictlyIncreasingIsDistinct(s: seq<int>)
    requires StrictlyIncreasing(s)
    ensures Distinct(s)
  {
  }

  // ---------------------------------------------------------------------------
  // counting and sums
  // ---------------------------------------------------------------------------

  /** A sequence without repeats has as many members as elements. */
  lemma {:induction false} DistinctCard(s: seq<int>)
    requires Distinct(s)
    ensures |set x | x in s| == |s|
  {
    if s != [] {
      var init, last := s[..|s| - 1], s[|s| - 1];
      assert s == init + [last];
      DistinctCard(init);
      assert last !in init;
      assert (set x | x in s) == (set x | x in init) + {last};
    }
  }

  /** The number of occurrences of k in s. */
  function Count(s: seq<int>, k: int): (n: nat)
    ensures n <= |s|
    ensures n > 0 <==> k in s
  {
    if s == [] then 0
    else Count(s[..|s| - 1], k) + (if s[|s| - 1] == k then 1 else 0)
  }

  lemma {:induction false} CountAtMostOnce(s: seq<int>, k: int)
    requires Distinct(s)
    ensures Count(s, k) <= 1
  {
    if s != [] {
      CountAtMostOnce(s[..|s| - 1], k);
      if s[|s| - 1] == k {
        assert k !in s[..|s| - 1];
      }
    }
  }

  /** Count(s, keys[i]) for every key, in key order. */
  function CountsOf(s: seq<int>, keys: seq<int>): (r: seq<nat>)
    ensures |r| == |keys|
    ensures forall i :: 0 <= i < |keys| ==> r[i] == Count(s, keys[i])
  {
    if keys == [] then []
    else CountsOf(s, keys[..|keys| - 1]) + [Count(s, keys[|keys| - 1])]
  }

  function SumInts(xs: seq<int>): int {
    if xs == [] then 0 else SumInts(xs[..|xs| - 1]) + xs[|xs| - 1]
  }

  lemma {:induction false} SumIntsAppend(a: seq<int>, b: seq<int>)
    ensures SumInts(a + b) == SumInts(a) + SumInts(b)
    decreases |b|
  {
    if b != [] {
      assert (a + b)[..|a + b| - 1] == a + b[..|b| - 1];
      SumIntsAppend(a, b[..|b| - 1]);
    } else {
      assert a + b == a;
    }
  }

  lemma {:induction false} CountsOfEmpty(keys: seq<int>)
    ensures SumInts(CountsOf([], keys)) == 0
  {
    if keys != [] {
      CountsOfEmpty(keys[..|keys| - 1]);
    }
  }

  lemma {:induction false} CountsOfExtend(s: seq<int>, x: int, keys: seq<int>)
    ensures SumInts(CountsOf(s + [x], keys)) == SumInts(CountsOf(s, keys)) + Count(keys, x)
  {
    if keys != [] {
      var ks, k := keys[..|keys| - 1], keys[|keys| - 1];
      CountsOfExtend(s, x, ks);
      assert (s + [x])[..|s + [x]| - 1] == s;
    }
  }

  /** Counting every key of a set of distinct keys that covers s accounts for
      every element of s exactly once. */
  lemma {:induction false} CountsOfCover(s: seq<int>, keys: seq<int>)
    requires Distinct(keys)
    requires forall x :: x in s ==> x in keys
    ensures SumInts(CountsOf(s, keys)) == |s|
  {
    if s == [] {
      CountsOfEmpty(keys);
    } else {
      var p, x := s[..|s| - 1], s[|s| - 1];
      assert s == p + [x];
      CountsOfCover(p, keys);
      CountsOfExtend(p, x, keys);
      CountAtMostOnce(keys, x);
    }
  }

  function SumReals(xs: seq<real>): real {
    if xs == [] then 0.0 else SumReals(xs[..|xs| - 1]) + xs[|xs| - 1]
  }

  lemma DivSelf(x: real)
    requires x != 0.0
    ensures x / x == 1.0
  {
  }

  /** numpy's cumsum on integers: element i sums the first i + 1 values. */
  function CumSum(xs: seq<int>): (r: seq<int>)
    ensures |r| == |xs| && forall i :: 0 <= i < |xs| ==> r[i] == SumInts(xs[..i + 1])
  {
    seq(|xs|, i requires 0 <= i < |xs| => SumInts(xs[..i + 1]))
  }

  /** The running total starts at the first value, grows by one value per
      step and ends at the sum of all values. */
  lemma CumSumSteps(xs: seq<int>)
    ensures xs != [] ==> CumSum(xs)[0] == xs[0]
    ensures forall i :: 0 < i < |xs| ==> CumSum(xs)[i] == CumSum(xs)[i - 1] + xs[i]
    ensures xs != [] ==> CumSum(xs)[|xs| - 1] == SumInts(xs)
  {
    forall i | 0 < i < |xs|
      ensures CumSum(xs)[i] == CumSum(xs)[i - 1] + xs[i]
    {
      assert xs[..i + 1][..i] == xs[..i];
    }
    if xs != [] {
      assert CumSum(xs)[0] == SumInts(xs[..1]);
      assert xs[..1] == [xs[0]];
      assert [xs[0]][..0] == [];
      assert SumInts([xs[0]]) == SumInts([]) + xs[0];
    }
    assert xs[..|xs|] == xs;
  }

  /** numpy's cumsum on reals. */
  function CumSumReals(xs: seq<real>): (r: seq<real>)
    ensures |r| == |xs| && forall i :: 0 <= i < |xs| ==> r[i] == SumReals(xs[..i + 1])
  {
    seq(|xs|, i requires 0 <= i < |xs| => SumReals(xs[..i + 1]))
  }

  /** The same three facts for reals. */
  lemma CumSumRealsSteps(xs: seq<real>)
    ensures xs != [] ==> CumSumReals(xs)[0] == xs[0]
    ensures forall i :: 0 < i < |xs| ==> CumSumReals(xs)[i] == CumSumReals(xs)[i - 1] + xs[i]
    ensures xs != [] ==> CumSumReals(xs)[|xs| - 1] == SumReals(xs)
  {
    forall i | 0 < i < |xs|
      ensures CumSumReals(xs)[i] == CumSumReals(xs)[i - 1] + xs[i]
    {
      assert xs[..i + 1][..i] == xs[..i];
    }
    if xs != [] {
      assert CumSumReals(xs)[0] == SumReals(xs[..1]);
      assert xs[..1] == [xs[0]];
      assert [xs[0]][..0] == [];
      assert SumReals([xs[0]]) == SumReals([]) + xs[0];
    }
    assert xs[..|xs|] == xs;
  }

  /** The position of a smallest value (`Series.min`). */
  function ArgMin(s: seq<real>): (i: nat)
    requires s != []
    ensures i < |s| && forall j :: 0 <= j < |s| ==> s[i] <= s[j]
  {
    if |s| == 1 then 0
    else
      var k := ArgMin(s[..|s| - 1]);
      if s[|s| - 1] < s[k] then |s| - 1 else k
  }

  /** The position of a largest value (`Series.max`). */
  function ArgMax(s: seq<real>): (i: nat)
    requires s != []
    ensures i < |s| && forall j :: 0 <= j < |s| ==> s[j] <= s[i]
  {
    if |s| == 1 then 0
    else
      var k := ArgMax(s[..|s| - 1]);
      if s[|s| - 1] > s[k] then |s| - 1 else k
  }

  function Min(s: seq<real>): real
    requires s != []
  {
    s[ArgMin(s)]
  }

  function Max(s: seq<real>): real
    requires s != []
  {
    s[ArgMax(s)]
  }

  // ---------------------------------------------------------------------------
  // (key, score) rows: sort_values(score, ascending=False) and head(k)
  // ---------------------------------------------------------------------------

  predicate NonIncreasingScores(s: seq<(int, int)>) {
    forall i, j :: 0 <= i < j < |s| ==> s[i].1 >= s[j].1
  }

  predicate DistinctKeys(s: seq<(int, int)>) {
    forall i, j :: 0 <= i < j < |s| ==> s[i].0 != s[j].0
  }

  function Keys(s: seq<(int, int)>): (r: seq<int>)
    ensures |r| == |s| && forall i :: 0 <= i < |s| ==> r[i] == s[i].0
  {
    seq(|s|, i requires 0 <= i < |s| => s[i].0)
  }

  /** One insertion-sort step: x goes in front of the first row it scores
      at least as high as. */
  function InsertByScore(x: (int, int), s: seq<(int, int)>): (r: seq<(int, int)>)
    requires NonIncreasingScores(s)
    ensures |r| == |s| + 1
    ensures NonIncreasingScores(r)
    ensures multiset(r) == multiset(s) + multiset{x}
  {
    if s == [] || x.1 >= s[0].1 then [x] + s
    else
      var t := InsertByScore(x, s[1..]);
      assert s == [s[0]] + s[1..];
      TailBound(x, s, t);
      PrependScore(s[0], t);
      [s[0]] + t
  }

  /** Every row of the insertion into the tail scores at most the head. */
  lemma TailBound(x: (int, int), s: seq<(int, int)>, t: seq<(int, int)>)
    requires NonIncreasingScores(s) && s != [] && x.1 < s[0].1
    requires multiset(t) == multiset(s[1..]) + multiset{x}
    ensures forall y :: y in t ==> y.1 <= s[0].1
  {
    forall y | y in t
      ensures y.1 <= s[0].1
    {
      assert y in multiset(t);
      if y != x {
        assert y in multiset(s[1..]);
        var k :| 0 <= k < |s[1..]| && s[1..][k] == y;
        assert s[k + 1] == y;
      }
    }
  }

  lemma PrependScore(a: (int, int), t: seq<(int, int)>)
    requires NonIncreasingScores(t) && forall y :: y in t ==> y.1 <= a.1
    ensures NonIncreasingScores([a] + t)
  {
    var r := [a] + t;
    forall i, j | 0 <= i < j < |r|
      ensures r[i].1 >= r[j].1
    {
      assert r[j] == t[j - 1];
      if i > 0 {
        assert r[i] == t[i - 1];
      }
    }
  }

  lemma PrependKeys(a: (int, int), t: seq<(int, int)>)
    requires DistinctKeys(t) && forall y :: y in t ==> y.0 != a.0
    ensures DistinctKeys([a] + t)
  {
    var r := [a] + t;
    forall i, j | 0 <= i < j < |r|
      ensures r[i].0 != r[j].0
    {
      assert r[j] == t[j - 1];
      if i > 0 {
        assert r[i] == t[i - 1];
      }
    }
  }

  /** Inserting a row with a new key keeps the keys distinct. */
  lemma {:induction false} InsertKeepsKeysDistinct(x: (int, int), s: seq<(int, int)>)
    requires NonIncreasingScores(s) && DistinctKeys(s)
    requires forall y :: y in s ==> y.0 != x.0
    ensures DistinctKeys(InsertByScore(x, s))
  {
    if s == [] || x.1 >= s[0].1 {
      PrependKeys(x, s);
    } else {
      var t := InsertByScore(x, s[1..]);
      assert s == [s[0]] + s[1..];
      InsertKeepsKeysDistinct(x, s[1..]);
      forall y | y in t
        ensures y.0 != s[0].0
      {
        assert y in multiset(t);
        if y != x {
          assert y in multiset(s[1..]);
          var k :| 0 <= k < |s[1..]| && s[1..][k] == y;
          assert s[k + 1] == y;
        }
      }
      PrependKeys(s[0], t);
    }
  }

  /** Rows reordered by descending score. Rows with equal scores may come in
      any order (the pandas default sort is not stable), so only the order of
      the scores and the multiset of rows are promised. */
  function SortByScoreDesc(s: seq<(int, int)>): (r: seq<(int, int)>)
    ensures NonIncreasingScores(r)
    ensures multiset(r) == multiset(s)
    ensures |r| == |s|
  {
    if s == [] then []
    else
      var p, x := s[..|s| - 1], s[|s| - 1];
      assert s == p + [x];
      assert multiset(s) == multiset(p) + multiset{x};
      var q := InsertByScore(x, SortByScoreDesc(p));
      q
  }

  lemma SameElements(a: seq<(int, int)>, b: seq<(int, int)>)
    requires multiset(a) == multiset(b)
    ensures forall y :: y in a <==> y in b
  {
    forall y
      ensures y in a <==> y in b
    {
      assert y in a <==> y in multiset(a);
      assert y in b <==> y in multiset(b);
    }
  }

  /** Sorting neither adds nor drops a row. */
  lemma SortKeepsRows(s: seq<(int, int)>)
    ensures forall y :: y in SortByScoreDesc(s) <==> y in s
  {
    SameElements(SortByScoreDesc(s), s);
  }

  /** Sorting rows with distinct keys keeps the keys distinct. */
  lemma {:induction false} SortKeepsKeysDistinct(s: seq<(int, int)>)
    ensures DistinctKeys(s) ==> DistinctKeys(SortByScoreDesc(s))
  {
    if s != [] && DistinctKeys(s) {
      var p, x := s[..|s| - 1], s[|s| - 1];
      assert s == p + [x];
      SortKeepsKeysDistinct(p);
      SameElements(SortByScoreDesc(p), p);
      forall y | y in SortByScoreDesc(p)
        ensures y.0 != x.0
      {
        var k :| 0 <= k < |p| && p[k] == y;
        assert s[k] == y;
      }
      InsertKeepsKeysDistinct(x, SortByScoreDesc(p));
    }
  }

  /** The first min(k, |s|) rows (pandas `head(k)`, or the slice `[0:k]`). */
  function Head<T>(s: seq<T>, k: nat): (r: seq<T>)
    ensures |r| == if |s| < k then |s| else k
    ensures r == s[..|r|]
  {
    if |s| < k then s else s[..k]
  }

  /** Taking the head of a ranking keeps the best rows: every row left out
      scores no more than any row kept. */
  lemma HeadDominatesRest(s: seq<(int, int)>, k: nat)
    requires NonIncreasingScores(s)
    ensures forall x, y :: x in s && x !in Head(s, k) && y in Head(s, k) ==> x.1 <= y.1
  {
    var h := Head(s, k);
    forall x, y | x in s && x !in h && y in h
      ensures x.1 <= y.1
    {
      var j :| 0 <= j < |s| && s[j] == x;
      var i :| 0 <= i < |h| && h[i] == y;
      assert s[i] == y;
    }
  }

  /** The k best-scoring rows (`sort_values(..., ascending=False)` followed
      by `head(k)` or `[0:k]`): min(k, |s|) rows of s, best first, and no row
      left out scores more than a row kept. Rows with distinct keys stay
      distinct. */
  function TopK(s: seq<(int, int)>, k: nat): (top: seq<(int, int)>)
    ensures |top| == if |s| < k then |s| else k
    ensures NonIncreasingScores(top)
    ensures forall y :: y in top ==> y in s
    ensures forall x, y :: x in s && x !in top && y in top ==> x.1 <= y.1
    ensures DistinctKeys(s) ==> DistinctKeys(top)
  {
    var sorted := SortByScoreDesc(s);
    var top := Head(sorted, k);
    assert forall y :: y in top ==> y in s by {
      SortKeepsRows(s);
      assert forall y :: y in top ==> y in sorted;
    }
    assert forall x, y :: x in s && x !in top && y in top ==> x.1 <= y.1 by {
      SortKeepsRows(s);
      HeadDominatesRest(sorted, k);
    }
    assert DistinctKeys(s) ==> DistinctKeys(top) by {
      SortKeepsKeysDistinct(s);
    }
    top
  }
}

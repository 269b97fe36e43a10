/** `Distribution.network_growth` and `Distribution.k_vs_t`: running counts
    and running sums over the edge table in row order.

    Both count rows with the expression `x / x` on an id column, which is one
    for every non-zero id (ids are required to be non-zero here), and take
    its running sum. network_growth then rescales the running counts and the
    running rating sums to [0, 1] by min-max normalisation; k_vs_t does not
    rescale. */
module Growth {
  import opened Seqs
  import opened Table

  /** `col / col` for an id column: one wherever the id is non-zero. */
  function SelfQuotients(xs: seq<int>): (r: seq<real>)
    requires forall i :: 0 <= i < |xs| ==> xs[i] != 0
    ensures |r| == |xs| && forall i :: 0 <= i < |xs| ==> r[i] == 1.0
  {
    var r := seq(|xs|, i requires 0 <= i < |xs| => xs[i] as real / xs[i] as real);
    forall i | 0 <= i < |xs|
      ensures r[i] == 1.0
    {
      DivSelf(xs[i] as real);
    }
    r
  }

  function ToReals(xs: seq<int>): (r: seq<real>)
    ensures |r| == |xs| && forall i :: 0 <= i < |xs| ==> r[i] == xs[i] as real
  {
    seq(|xs|, i requires 0 <= i < |xs| => xs[i] as real)
  }

  lemma {:induction false} SumOfOnes(xs: seq<real>)
    requires forall i :: 0 <= i < |xs| ==> xs[i] == 1.0
    ensures SumReals(xs) == |xs| as real
  {
    if xs != [] {
      SumOfOnes(xs[..|xs| - 1]);
    }
  }

  /** A running count of ones is 1, 2, ..., m. */
  lemma CountUp(xs: seq<real>)
    requires forall i :: 0 <= i < |xs| ==> xs[i] == 1.0
    ensures forall i :: 0 <= i < |xs| ==> CumSumReals(xs)[i] == (i + 1) as real
  {
    forall i | 0 <= i < |xs|
      ensures CumSumReals(xs)[i] == (i + 1) as real
    {
      SumOfOnes(xs[..i + 1]);
    }
  }

  /** Min-max normalisation needs a largest value above the smallest. */
  predicate Normalizable(xs: seq<real>) {
    xs == [] || Min(xs) < Max(xs)
  }

  /** Where x lies between lo and hi, as a fraction of the distance. */
  function Rescale(x: real, lo: real, hi: real): real
    requires lo < hi
  {
    (x - lo) / (hi - lo)
  }

  lemma RescaleBounds(x: real, lo: real, hi: real)
    requires lo <= x <= hi && lo < hi
    ensures 0.0 <= Rescale(x, lo, hi) <= 1.0
    ensures x == lo ==> Rescale(x, lo, hi) == 0.0
    ensures x == hi ==> Rescale(x, lo, hi) == 1.0
  {
    var d := hi - lo;
    var q := Rescale(x, lo, hi);
    assert q * d == x - lo;
  }

  lemma RescaleOrder(x: real, y: real, lo: real, hi: real)
    requires lo < hi
    ensures x < y <==> Rescale(x, lo, hi) < Rescale(y, lo, hi)
  {
    var d := hi - lo;
    assert Rescale(x, lo, hi) * d == x - lo;
    assert Rescale(y, lo, hi) * d == y - lo;
  }

  /** `(s - s.min()) / (s.max() - s.min())`: every value lands in [0, 1], the
      smallest on 0 and the largest on 1, and the order of the values is kept
      in both directions. */
  function Normalize(xs: seq<real>): (r: seq<real>)
    requires Normalizable(xs)
    ensures |r| == |xs|
    ensures forall i :: 0 <= i < |xs| ==> 0.0 <= r[i] <= 1.0
    ensures xs != [] ==> r[ArgMin(xs)] == 0.0 && r[ArgMax(xs)] == 1.0
    ensures forall i, j :: 0 <= i < |xs| && 0 <= j < |xs| ==> (xs[i] < xs[j] <==> r[i] < r[j])
  {
    if xs == [] then []
    else
      var lo, hi := Min(xs), Max(xs);
      var r := seq(|xs|, i requires 0 <= i < |xs| => Rescale(xs[i], lo, hi));
      forall i | 0 <= i < |xs|
        ensures 0.0 <= r[i] <= 1.0
        ensures xs[i] == lo ==> r[i] == 0.0
        ensures xs[i] == hi ==> r[i] == 1.0
      {
        RescaleBounds(xs[i], lo, hi);
      }
      forall i, j | 0 <= i < |xs| && 0 <= j < |xs|
        ensures xs[i] < xs[j] <==> r[i] < r[j]
      {
        RescaleOrder(xs[i], xs[j], lo, hi);
      }
      r
  }

  lemma ScaledStrict(a: real, b: real, d: real)
    requires d > 0.0
    ensures a < b <==> a / d < b / d
  {
    assert (a / d) * d == a && (b / d) * d == b;
  }

  /** Normalising a non-decreasing series gives a non-decreasing series. */
  lemma NormalizeMonotone(xs: seq<real>)
    requires Normalizable(xs)
    requires forall i, j :: 0 <= i <= j < |xs| ==> xs[i] <= xs[j]
    ensures forall i, j :: 0 <= i <= j < |xs| ==> Normalize(xs)[i] <= Normalize(xs)[j]
  {
    var r := Normalize(xs);
    forall i, j | 0 <= i <= j < |xs|
      ensures r[i] <= r[j]
    {
      assert !(xs[j] < xs[i]);
    }
  }

  /** The series returned by network_growth. */
  datatype NetworkSeries = NetworkSeries(time: seq<int>, normEdges: seq<real>, normRatings: seq<real>)

  /** `np.cumsum(df['SOURCE'] / df['SOURCE'])`. */
  function EdgeCounts(rows: seq<Edge>): (r: seq<real>)
    requires forall i :: 0 <= i < |rows| ==> rows[i].source != 0
    ensures |r| == |rows| && forall i :: 0 <= i < |rows| ==> r[i] == (i + 1) as real
  {
    CountUp(SelfQuotients(Sources(rows)));
    CumSumReals(SelfQuotients(Sources(rows)))
  }

  /** `np.cumsum(df['RATING'])`. */
  function RatingSums(rows: seq<Edge>): (r: seq<int>)
    ensures |r| == |rows| && forall i :: 0 <= i < |rows| ==> r[i] == SumInts(Ratings(rows)[..i + 1])
  {
    CumSum(Ratings(rows))
  }

  /** The running total of the ratings starts at the first rating, adds one
      row's rating per step and ends at the sum of all ratings. */
  lemma RatingSumsRunningTotal(rows: seq<Edge>)
    ensures rows != [] ==> RatingSums(rows)[0] == rows[0].rating
    ensures forall i :: 0 < i < |rows| ==> RatingSums(rows)[i] == RatingSums(rows)[i - 1] + rows[i].rating
    ensures rows != [] ==> RatingSums(rows)[|rows| - 1] == SumInts(Ratings(rows))
  {
    CumSumSteps(Ratings(rows));
  }

  /** The running counts 1..n normalise to i / (n - 1). */
  lemma {:induction false} NormalizedCountUp(xs: seq<real>)
    requires |xs| != 1
    requires forall i :: 0 <= i < |xs| ==> xs[i] == (i + 1) as real
    ensures Normalizable(xs)
    ensures forall i :: 0 <= i < |xs| ==> Normalize(xs)[i] == i as real / (|xs| - 1) as real
  {
    if xs != [] {
      var n := |xs|;
      var a, b := ArgMin(xs), ArgMax(xs);
      assert xs[a] <= xs[0] && xs[n - 1] <= xs[b];
      assert Min(xs) == 1.0 && Max(xs) == n as real;
    }
  }

  /** The normalised edge count is i / (n - 1); the normalised running rating
      sum lies in [0, 1], is 0 where the running sum is smallest and 1 where
      it is largest. TIME is passed through. The requirements are the ones
      under which the code's divisions are defined: non-zero SOURCE ids, not
      exactly one row, and running rating sums that are not all equal. */
  function NetworkGrowth(rows: seq<Edge>): (g: NetworkSeries)
    requires forall i :: 0 <= i < |rows| ==> rows[i].source != 0
    requires |rows| != 1
    requires Normalizable(ToReals(RatingSums(rows)))
    ensures |g.time| == |rows| && |g.normEdges| == |rows| && |g.normRatings| == |rows|
    ensures forall i :: 0 <= i < |rows| ==> g.time[i] == rows[i].time
    ensures forall i :: 0 <= i < |rows| ==> g.normEdges[i] == i as real / (|rows| - 1) as real
    ensures forall i :: 0 <= i < |rows| ==> 0.0 <= g.normRatings[i] <= 1.0
    ensures rows != [] ==> var sums := ToReals(RatingSums(rows));
      g.normRatings[ArgMin(sums)] == 0.0 && g.normRatings[ArgMax(sums)] == 1.0
    ensures forall i, j :: 0 <= i < |rows| && 0 <= j < |rows| ==>
      (RatingSums(rows)[i] < RatingSums(rows)[j] <==> g.normRatings[i] < g.normRatings[j])
  {
    var sumEdges := EdgeCounts(rows);
    NormalizedCountUp(sumEdges);
    NetworkSeries(Times(rows), Normalize(sumEdges), RatingCurve(rows))
  }

  /** `(sum_ratings - min) / (max - min)` over the running rating sums. */
  function RatingCurve(rows: seq<Edge>): (r: seq<real>)
    requires Normalizable(ToReals(RatingSums(rows)))
    ensures |r| == |rows|
    ensures forall i :: 0 <= i < |rows| ==> 0.0 <= r[i] <= 1.0
    ensures rows != [] ==> var sums := ToReals(RatingSums(rows));
      r[ArgMin(sums)] == 0.0 && r[ArgMax(sums)] == 1.0
    ensures forall i, j :: 0 <= i < |rows| && 0 <= j < |rows| ==>
      (RatingSums(rows)[i] < RatingSums(rows)[j] <==> r[i] < r[j])
  {
    var sums := ToReals(RatingSums(rows));
    assert forall i :: 0 <= i < |rows| ==> sums[i] == RatingSums(rows)[i] as real;
    Normalize(sums)
  }

  /** The normalised edge count starts at 0, ends at 1 and rises strictly. */
  lemma EdgeGrowthIsLinear(rows: seq<Edge>)
    requires forall i :: 0 <= i < |rows| ==> rows[i].source != 0
    requires |rows| >= 2
    requires Normalizable(ToReals(RatingSums(rows)))
    ensures var e := NetworkGrowth(rows).normEdges;
      && e[0] == 0.0 && e[|rows| - 1] == 1.0
      && forall i, j :: 0 <= i < j < |rows| ==> e[i] < e[j]
  {
    var e := NetworkGrowth(rows).normEdges;
    var d := (|rows| - 1) as real;
    forall i, j | 0 <= i < j < |rows|
      ensures e[i] < e[j]
    {
      ScaledStrict(i as real, j as real, d);
    }
  }

  lemma {:induction false} PrefixSumsGrow(xs: seq<int>, i: nat, j: nat)
    requires i <= j <= |xs|
    requires forall m :: 0 <= m < |xs| ==> xs[m] >= 0
    ensures SumInts(xs[..i]) <= SumInts(xs[..j])
    decreases j
  {
    if i < j {
      PrefixSumsGrow(xs, i, j - 1);
      assert xs[..j][..j - 1] == xs[..j - 1];
    }
  }

  /** With no negative rating the normalised rating curve never falls. */
  lemma RatingGrowthMonotone(rows: seq<Edge>)
    requires forall i :: 0 <= i < |rows| ==> rows[i].source != 0
    requires |rows| != 1
    requires Normalizable(ToReals(RatingSums(rows)))
    requires forall i :: 0 <= i < |rows| ==> rows[i].rating >= 0
    ensures var r := NetworkGrowth(rows).normRatings;
      forall i, j :: 0 <= i <= j < |rows| ==> r[i] <= r[j]
  {
    var r := NetworkGrowth(rows).normRatings;
    RatingSumsGrow(rows);
    forall i, j | 0 <= i <= j < |rows|
      ensures r[i] <= r[j]
    {
      assert RatingSums(rows)[i] <= RatingSums(rows)[j];
    }
  }

  lemma RatingSumsGrow(rows: seq<Edge>)
    requires forall i :: 0 <= i < |rows| ==> rows[i].rating >= 0
    ensures forall i, j :: 0 <= i <= j < |rows| ==> RatingSums(rows)[i] <= RatingSums(rows)[j]
  {
    forall i, j | 0 <= i <= j < |rows|
      ensures RatingSums(rows)[i] <= RatingSums(rows)[j]
    {
      PrefixSumsGrow(Ratings(rows), i + 1, j + 1);
    }
  }

  /** With a negative rating the curve can fall: ratings 1, -1, 1 give the
      running sums 1, 0, 1, so the normalised curve goes 1, 0, 1. */
  lemma RatingGrowthCanFall()
    ensures var rows := [Edge(1, 2, 1, 0), Edge(2, 3, -1, 1), Edge(3, 1, 1, 2)];
      && Normalizable(ToReals(RatingSums(rows)))
      && NetworkGrowth(rows).normRatings[0] > NetworkGrowth(rows).normRatings[1]
  {
    var rows := [Edge(1, 2, 1, 0), Edge(2, 3, -1, 1), Edge(3, 1, 1, 2)];
    var rs := Ratings(rows);
    assert rs[..1] == [1] && rs[..2] == [1, -1];
    assert SumInts(rs[..1]) == 1;
    assert SumInts(rs[..2]) == 0;
    var sums := ToReals(RatingSums(rows));
    assert sums[1] == 0.0 && sums[0] == 1.0;
    assert Min(sums) <= sums[1] < sums[0] <= Max(sums);
  }

  // ---------------------------------------------------------------------------
  // k_vs_t
  // ---------------------------------------------------------------------------

  /** The four series returned by k_vs_t. */
  datatype UserSeries = UserSeries(tIn: seq<int>, tOut: seq<int>, kIn: seq<real>, kOut: seq<real>)

  /** The "in" series are the rows the user SENDS (`df['SOURCE'] == user`),
      the "out" series the rows the user receives; each keeps the rows in
      table order with their TIME, and each counter runs 1, 2, ..., m over
      its m rows, without normalisation. */
  function KVsT(user: int, rows: seq<Edge>): (s: UserSeries)
    requires user != 0
    ensures s.tIn == Times(Where(rows, HasSource(user)))
    ensures s.tOut == Times(Where(rows, HasTarget(user)))
    ensures |s.kIn| == |s.tIn| == SentBy(rows, user)
    ensures |s.kOut| == |s.tOut| == ReceivedBy(rows, user)
    ensures forall i :: 0 <= i < |s.kIn| ==> s.kIn[i] == (i + 1) as real
    ensures forall i :: 0 <= i < |s.kOut| ==> s.kOut[i] == (i + 1) as real
  {
    var inUserData := Where(rows, HasSource(user));
    var outUserData := Where(rows, HasTarget(user));
    assert forall i :: 0 <= i < |inUserData| ==> inUserData[i] in inUserData;
    assert forall i :: 0 <= i < |outUserData| ==> outUserData[i] in outUserData;
    var kIn := CumSumReals(SelfQuotients(Sources(inUserData)));
    var kOut := CumSumReals(SelfQuotients(Targets(outUserData)));
    CountUp(SelfQuotients(Sources(inUserData)));
    CountUp(SelfQuotients(Targets(outUserData)));
    UserSeries(Times(inUserData), Times(outUserData), kIn, kOut)
  }

  /** The "in" series runs over exactly the rows with SOURCE == user, in
      table order, and its counter ends at their number. */
  lemma InSeriesIsSentRows(user: int, rows: seq<Edge>)
    requires user != 0
    ensures var s := KVsT(user, rows);
      && (forall i :: 0 <= i < |s.tIn| ==> exists e :: e in rows && e.source == user && e.time == s.tIn[i])
      && (SentBy(rows, user) > 0 ==> s.kIn[|s.kIn| - 1] == SentBy(rows, user) as real)
  {
    var w := Where(rows, HasSource(user));
    var s := KVsT(user, rows);
    forall i | 0 <= i < |s.tIn|
      ensures exists e :: e in rows && e.source == user && e.time == s.tIn[i]
    {
      assert w[i] in w && s.tIn[i] == w[i].time;
    }
    if SentBy(rows, user) > 0 {
      assert s.kIn[|s.kIn| - 1] == (|s.kIn| - 1 + 1) as real;
    }
  }
}

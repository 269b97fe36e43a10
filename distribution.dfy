/** `Distribution.distributions`: the degree histogram of a degree table and
    its normalisations. The result is a frame indexed by the distinct degree
    values k in ascending order (the order of `groupby('degree')`), with the
    columns n(k) (how many table rows have degree k), p(k) = n(k) / sum(n),
    cdf = cumsum(p) and ccdf = 1 - cdf. Probabilities are exact reals. */
module DegreeDistribution {
  import opened Seqs
  import opened DiGraphs

  /** The columns of the frame; entry i of every column belongs to degree k[i]. */
  datatype Distribution = Distribution(k: seq<int>, n: seq<nat>, p: seq<real>, cdf: seq<real>, ccdf: seq<real>)

  /** The 'degree' column of a degree table. */
  function DegreeColumn(t: seq<DegreeRow>): (r: seq<int>)
    ensures |r| == |t| && forall i :: 0 <= i < |t| ==> r[i] == t[i].degree
  {
    seq(|t|, i requires 0 <= i < |t| => t[i].degree)
  }

  /** n / n.sum(), for a positive total. */
  function Shares(ns: seq<nat>, total: nat): (r: seq<real>)
    requires total > 0
    ensures |r| == |ns| && forall i :: 0 <= i < |ns| ==> r[i] == ns[i] as real / total as real
  {
    seq(|ns|, i requires 0 <= i < |ns| => ns[i] as real / total as real)
  }

  /** 1 - cdf. */
  function Complement(cdf: seq<real>): (r: seq<real>)
    ensures |r| == |cdf| && forall i :: 0 <= i < |cdf| ==> r[i] == 1.0 - cdf[i]
  {
    seq(|cdf|, i requires 0 <= i < |cdf| => 1.0 - cdf[i])
  }

  /** One row per distinct degree, ascending; n counts the table rows with
      that degree, so no count is zero. The other columns are described by
      ProbabilityColumn and CumulativeColumns. */
  function Distributions(df: seq<DegreeRow>): (r: Distribution)
    ensures |r.n| == |r.k| && |r.p| == |r.k| && |r.cdf| == |r.k| && |r.ccdf| == |r.k|
    ensures StrictlyIncreasing(r.k)
    ensures forall x :: x in r.k <==> x in DegreeColumn(df)
    ensures forall i :: 0 <= i < |r.k| ==> r.n[i] == Count(DegreeColumn(df), r.k[i]) && r.n[i] >= 1
    ensures r.k == [] <==> df == []
  {
    if df == [] then Distribution([], [], [], [], [])
    else
      var ds := DegreeColumn(df);
      var keys := SortedDistinct(ds);
      var ns := CountsOf(ds, keys);
      assert SumInts(ns) == |df| by {
        CountSumIsRows(ds, keys);
      }
      assert keys != [] by {
        assert ds[0] in ds;
      }
      var ps := Shares(ns, SumInts(ns));
      var cdf := CumSumReals(ps);
      Distribution(keys, ns, ps, cdf, Complement(cdf))
  }

  lemma CountSumIsRows(ds: seq<int>, keys: seq<int>)
    requires keys == SortedDistinct(ds)
    ensures SumInts(CountsOf(ds, keys)) == |ds|
  {
    StrictlyIncreasingIsDistinct(keys);
    CountsOfCover(ds, keys);
  }

  /** The counts account for every row of the degree table once. */
  lemma CountsSumToRows(df: seq<DegreeRow>)
    ensures SumInts(Distributions(df).n) == |df|
  {
    if df != [] {
      CountSumIsRows(DegreeColumn(df), SortedDistinct(DegreeColumn(df)));
    }
  }

  lemma {:induction false} SumOfShares(ns: seq<nat>, ps: seq<real>, total: real)
    requires total != 0.0
    requires |ps| == |ns| && forall i :: 0 <= i < |ns| ==> ps[i] == ns[i] as real / total
    ensures SumReals(ps) == SumInts(ns) as real / total
  {
    if ns != [] {
      var m := |ns| - 1;
      SumOfShares(ns[..m], ps[..m], total);
      assert SumReals(ps) == SumInts(ns[..m]) as real / total + ns[m] as real / total;
    }
  }

  /** The p, cdf and ccdf columns, in terms of n. */
  lemma DerivedColumns(df: seq<DegreeRow>)
    requires df != []
    ensures var r := Distributions(df);
      && r.p == Shares(r.n, |df|)
      && r.cdf == CumSumReals(r.p)
      && r.ccdf == Complement(r.cdf)
  {
    CountSumIsRows(DegreeColumn(df), SortedDistinct(DegreeColumn(df)));
  }

  /** p(k) is the share n(k) / |df| of the table's rows, and the shares sum
      to one. */
  lemma ProbabilityColumn(df: seq<DegreeRow>)
    requires df != []
    ensures var r := Distributions(df);
      && (forall i :: 0 <= i < |r.p| ==> r.p[i] == r.n[i] as real / |df| as real)
      && SumReals(r.p) == 1.0
  {
    DerivedColumns(df);
    CountsSumToRows(df);
    var r := Distributions(df);
    var t := |df| as real;
    SumOfShares(r.n, r.p, t);
    assert SumInts(r.n) as real == t;
    DivSelf(t);
  }

  lemma {:induction false} SumRealsPrefixGrows(xs: seq<real>, i: nat, j: nat)
    requires i <= j <= |xs|
    requires forall m :: 0 <= m < |xs| ==> xs[m] >= 0.0
    ensures SumReals(xs[..i]) <= SumReals(xs[..j])
    decreases j
  {
    if i < j {
      SumRealsPrefixGrows(xs, i, j - 1);
      assert xs[..j][..j - 1] == xs[..j - 1];
    }
  }

  /** The running sums of positive shares that total one rise strictly
      from the first share up to exactly one. */
  lemma CumSumOfShares(ps: seq<real>)
    requires ps != []
    requires forall m :: 0 <= m < |ps| ==> ps[m] > 0.0
    requires SumReals(ps) == 1.0
    ensures var c := CumSumReals(ps);
      && (forall i, j :: 0 <= i <= j < |c| ==> c[i] <= c[j])
      && (forall i :: 0 <= i < |c| ==> 0.0 < c[i] <= 1.0)
      && c[|c| - 1] == 1.0
  {
    var c := CumSumReals(ps);
    assert ps[..|ps|] == ps;
    forall i, j | 0 <= i <= j < |c|
      ensures c[i] <= c[j]
    {
      SumRealsPrefixGrows(ps, i + 1, j + 1);
    }
    forall i | 0 <= i < |c|
      ensures 0.0 < c[i] <= 1.0
    {
      SumRealsPrefixGrows(ps, i + 1, |ps|);
      SumRealsPrefixGrows(ps, 0, i);
      assert ps[..i + 1][..i] == ps[..i];
    }
  }

  /** cdf is non-decreasing, every cdf value lies in (0, 1], its last value
      is one, and ccdf is its complement, ending at zero. The plotters drop
      that last row because a zero ccdf cannot be drawn on log axes. */
  lemma CumulativeColumns(df: seq<DegreeRow>)
    requires df != []
    ensures var r := Distributions(df);
      && (forall i :: 0 <= i < |r.cdf| ==> r.cdf[i] == SumReals(r.p[..i + 1]))
      && (forall i, j :: 0 <= i <= j < |r.cdf| ==> r.cdf[i] <= r.cdf[j])
      && (forall i :: 0 <= i < |r.cdf| ==> 0.0 < r.cdf[i] <= 1.0)
      && (forall i :: 0 <= i < |r.cdf| ==> r.ccdf[i] == 1.0 - r.cdf[i])
      && r.cdf[|r.cdf| - 1] == 1.0 && r.ccdf[|r.ccdf| - 1] == 0.0
  {
    DerivedColumns(df);
    ProbabilityColumn(df);
    var r := Distributions(df);
    forall m | 0 <= m < |r.p|
      ensures r.p[m] > 0.0
    {
      PositiveShare(r.n[m], |df|);
    }
    CumSumOfShares(r.p);
  }

  lemma PositiveShare(n: nat, total: nat)
    requires n >= 1 && total >= 1
    ensures n as real / total as real > 0.0
  {
  }
}

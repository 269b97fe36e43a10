/** `bitcoin_otc.main`: the analysis of the whole table, every rating
    included (`plot_top10`, the other part of this script that is modelled,
    is `OverallRatings.TopRated`). */
module BitcoinOtc {
  import opened Table
  import opened DiGraphs
  import opened Analysis

  /** `net`, the degree tables, their means and the distributions. */
  function AllRatings(rows: seq<Edge>): Report {
    Analyze(rows)
  }

  /** A pair rated several times is one edge, carrying the RATING of its
      last row. */
  lemma AllRatingsKeepLastRating(rows: seq<Edge>, k: nat)
    requires k < |rows|
    requires forall j :: k < j < |rows| ==> PairOf(rows[j]) != PairOf(rows[k])
    ensures PairOf(rows[k]) in AllRatings(rows).net.rating
    ensures AllRatings(rows).net.rating[PairOf(rows[k])] == rows[k].rating
  {
    LastRatingWins(rows, k);
  }

  /** A node's in-degree is at most the number of rows it receives and its
      out-degree at most the number of rows it sends. */
  lemma DegreesAtMostRows(rows: seq<Edge>, v: int)
    ensures Degree(AllRatings(rows).net, In, v) <= ReceivedBy(rows, v)
    ensures Degree(AllRatings(rows).net, Out, v) <= SentBy(rows, v)
  {
    DegreeAtMostRowCount(rows, In, v);
    DegreeAtMostRowCount(rows, Out, v);
  }

  /** Repeated ratings of a pair make one edge, so there are never more
      edges than rows. */
  lemma EdgesAtMostRows(rows: seq<Edge>)
    ensures |AllRatings(rows).net.rating.Keys| <= |rows|
  {
    PairSetAtMostRows(rows);
  }
}

/** `pos_net.main`: the same analysis on the rows whose RATING is positive
    (`df[df['RATING'] > 0]`). */
module PosNet {
  import opened Table
  import opened DiGraphs
  import opened Analysis
  import BitcoinOtc

  /** `pos_net`, its degree tables, their means and the distributions. */
  function PositiveRatings(rows: seq<Edge>): Report {
    Analyze(Where(rows, IsPositive))
  }

  /** The nodes are the endpoints of the positive rows, and the edges the
      pairs that some positive row rates. */
  lemma PositiveNodesAndEdges(rows: seq<Edge>)
    ensures forall v :: v in PositiveRatings(rows).net.nodes <==>
      exists e :: e in rows && e.rating > 0 && (e.source == v || e.target == v)
    ensures forall p :: p in PositiveRatings(rows).net.rating <==>
      exists e :: e in rows && e.rating > 0 && PairOf(e) == p
  {
    var sel := Where(rows, IsPositive);
    forall v | exists e :: e in rows && e.rating > 0 && (e.source == v || e.target == v)
      ensures IsEndpoint(sel, v)
    {
      var e :| e in rows && e.rating > 0 && (e.source == v || e.target == v);
      assert e in sel;
    }
    forall p | exists e :: e in rows && e.rating > 0 && PairOf(e) == p
      ensures p in PairSet(sel)
    {
      var e :| e in rows && e.rating > 0 && PairOf(e) == p;
      assert e in sel;
    }
  }

  /** Every edge of the positive network carries a positive rating: the
      RATING of a positive row with that pair. */
  lemma PositiveEdgesArePositive(rows: seq<Edge>, p: (int, int))
    requires p in PositiveRatings(rows).net.rating
    ensures PositiveRatings(rows).net.rating[p] > 0
  {
    RatingFromSomeRow(Where(rows, IsPositive), p);
  }

  /** The edge of a pair carries the RATING of its last positive row; a
      later non-positive row of the pair does not change it. */
  lemma PositiveKeepsLastPositiveRating(rows: seq<Edge>, k: nat)
    requires k < |rows| && rows[k].rating > 0
    requires forall j :: k < j < |rows| && rows[j].rating > 0 ==> PairOf(rows[j]) != PairOf(rows[k])
    ensures PairOf(rows[k]) in PositiveRatings(rows).net.rating
    ensures PositiveRatings(rows).net.rating[PairOf(rows[k])] == rows[k].rating
  {
    LastKeptRatingWins(rows, IsPositive, k);
  }

  /** The positive network is a subgraph of the network of all ratings, so
      no degree is larger in it. */
  lemma PositiveIsSubgraph(rows: seq<Edge>)
    ensures var pos, all := PositiveRatings(rows).net, Analyze(rows).net;
      && pos.rating.Keys <= all.rating.Keys
      && (forall v :: v in pos.nodes ==> v in all.nodes)
      && forall d, v :: Degree(pos, d, v) <= Degree(all, d, v)
  {
    FilteredSubgraph(rows, IsPositive);
  }

  /** The stored RATING of a pair can differ between the positive network
      and the network of all ratings: rows (1, 2, 5) then (1, 2, -3) leave 5
      in the positive network and -3 in the full one. */
  lemma PositiveRatingCanDiffer()
    ensures var rows := [Edge(1, 2, 5, 0), Edge(1, 2, -3, 1)];
      && PositiveRatings(rows).net.rating[(1, 2)] == 5
      && BitcoinOtc.AllRatings(rows).net.rating[(1, 2)] == -3
  {
    var rows := [Edge(1, 2, 5, 0), Edge(1, 2, -3, 1)];
    PositiveKeepsLastPositiveRating(rows, 0);
    BitcoinOtc.AllRatingsKeepLastRating(rows, 1);
  }
}

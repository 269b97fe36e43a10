/** `neg_net.main`: the same analysis on the rows whose RATING is negative
    (`df[df['RATING'] < 0]`). */
module NegNet {
  import opened Table
  import opened DiGraphs
  import opened Analysis
  import PosNet

  /** `neg_net`, its degree tables, their means and the distributions. */
  function NegativeRatings(rows: seq<Edge>): Report {
    Analyze(Where(rows, IsNegative))
  }

  /** The nodes are the endpoints of the negative rows, and the edges the
      pairs that some negative row rates. */
  lemma NegativeNodesAndEdges(rows: seq<Edge>)
    ensures forall v :: v in NegativeRatings(rows).net.nodes <==>
      exists e :: e in rows && e.rating < 0 && (e.source == v || e.target == v)
    ensures forall p :: p in NegativeRatings(rows).net.rating <==>
      exists e :: e in rows && e.rating < 0 && PairOf(e) == p
  {
    var sel := Where(rows, IsNegative);
    forall v | exists e :: e in rows && e.rating < 0 && (e.source == v || e.target == v)
      ensures IsEndpoint(sel, v)
    {
      var e :| e in rows && e.rating < 0 && (e.source == v || e.target == v);
      assert e in sel;
    }
    forall p | exists e :: e in rows && e.rating < 0 && PairOf(e) == p
      ensures p in PairSet(sel)
    {
      var e :| e in rows && e.rating < 0 && PairOf(e) == p;
      assert e in sel;
    }
  }

  /** Every edge of the negative network carries a negative rating: the
      RATING of a negative row with that pair. */
  lemma NegativeEdgesAreNegative(rows: seq<Edge>, p: (int, int))
    requires p in NegativeRatings(rows).net.rating
    ensures NegativeRatings(rows).net.rating[p] < 0
  {
    RatingFromSomeRow(Where(rows, IsNegative), p);
  }

  /** The edge of a pair carries the RATING of its last negative row; a
      later non-negative row of the pair does not change it. */
  lemma NegativeKeepsLastNegativeRating(rows: seq<Edge>, k: nat)
    requires k < |rows| && rows[k].rating < 0
    requires forall j :: k < j < |rows| && rows[j].rating < 0 ==> PairOf(rows[j]) != PairOf(rows[k])
    ensures PairOf(rows[k]) in NegativeRatings(rows).net.rating
    ensures NegativeRatings(rows).net.rating[PairOf(rows[k])] == rows[k].rating
  {
    LastKeptRatingWins(rows, IsNegative, k);
  }

  /** The negative network is a subgraph of the network of all ratings, so
      no degree is larger in it. */
  lemma NegativeIsSubgraph(rows: seq<Edge>)
    ensures var neg, all := NegativeRatings(rows).net, Analyze(rows).net;
      && neg.rating.Keys <= all.rating.Keys
      && (forall v :: v in neg.nodes ==> v in all.nodes)
      && forall d, v :: Degree(neg, d, v) <= Degree(all, d, v)
  {
    FilteredSubgraph(rows, IsNegative);
  }

  /** A pair rated both positively and negatively is an edge of both signed
      networks, with a positive rating in one and a negative in the other. */
  lemma PairRatedBothWays(rows: seq<Edge>, i: nat, j: nat)
    requires i < |rows| && j < |rows|
    requires rows[i].rating > 0 && rows[j].rating < 0 && PairOf(rows[i]) == PairOf(rows[j])
    ensures var p, pos, neg := PairOf(rows[i]), PosNet.PositiveRatings(rows).net, NegativeRatings(rows).net;
      && p in pos.rating && p in neg.rating
      && pos.rating[p] > 0 > neg.rating[p]
  {
    var p := PairOf(rows[i]);
    assert rows[i] in rows && rows[j] in rows;
    PosNet.PositiveNodesAndEdges(rows);
    NegativeNodesAndEdges(rows);
    PosNet.PositiveEdgesArePositive(rows, p);
    NegativeEdgesAreNegative(rows, p);
  }

  /** When no RATING is zero, every edge of the network of all ratings is
      an edge of the positive network or of the negative one. */
  lemma SignedNetworksCoverAllEdges(rows: seq<Edge>)
    requires forall i :: 0 <= i < |rows| ==> rows[i].rating != 0
    ensures Analyze(rows).net.rating.Keys
      == PosNet.PositiveRatings(rows).net.rating.Keys + NegativeRatings(rows).net.rating.Keys
  {
    SignedPairs(rows);
  }

  lemma SignedPairs(rows: seq<Edge>)
    requires forall i :: 0 <= i < |rows| ==> rows[i].rating != 0
    ensures PairSet(rows) == PairSet(Where(rows, IsPositive)) + PairSet(Where(rows, IsNegative))
  {
    forall p | p in PairSet(rows)
      ensures p in PairSet(Where(rows, IsPositive)) + PairSet(Where(rows, IsNegative))
    {
      var e :| e in rows && PairOf(e) == p;
      var i :| 0 <= i < |rows| && rows[i] == e;
      if e.rating > 0 {
        assert e in Where(rows, IsPositive);
      } else {
        assert e in Where(rows, IsNegative);
      }
    }
  }
}

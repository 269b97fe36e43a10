/** `Distribution.overall_ratings` and the selection in `plot_top10`.

    overall_ratings sorts the table by TARGET, takes the distinct TARGET
    values (hence in ascending order) and pairs each with the sum of RATING
    over the rows into it. A row of the result is a pair (node,
    overall_rating). Sorting the table first does not change any sum, so the
    sums below run over the rows in table order. */
module OverallRatings {
  import opened Seqs
  import opened Table

  /** The summed RATING of the rows whose TARGET is v. */
  function RatingInto(rows: seq<Edge>, v: int): int {
    SumInts(Ratings(Where(rows, HasTarget(v))))
  }

  /** Every RATING of the table, summed. */
  function TotalRating(rows: seq<Edge>): int {
    SumInts(Ratings(rows))
  }

  /** One (node, overall_rating) row per key, in key order. */
  function RatingRows(rows: seq<Edge>, keys: seq<int>): (t: seq<(int, int)>)
    ensures |t| == |keys|
    ensures forall i :: 0 <= i < |keys| ==> t[i] == (keys[i], RatingInto(rows, keys[i]))
  {
    if keys == [] then []
    else RatingRows(rows, keys[..|keys| - 1]) + [(keys[|keys| - 1], RatingInto(rows, keys[|keys| - 1]))]
  }

  /** The overall rating column, summed. */
  function SumScores(t: seq<(int, int)>): int {
    if t == [] then 0 else SumScores(t[..|t| - 1]) + t[|t| - 1].1
  }

  predicate IsTarget(rows: seq<Edge>, v: int) {
    exists e :: e in rows && e.target == v
  }

  /** One row per distinct TARGET, by ascending node id, each carrying the
      summed RATING of the rows into that node. A node that is never a
      TARGET has no row. */
  function OverallRatings(rows: seq<Edge>): (t: seq<(int, int)>)
    ensures StrictlyIncreasing(Keys(t))
    ensures forall v :: v in Keys(t) <==> IsTarget(rows, v)
    ensures forall i :: 0 <= i < |t| ==> t[i].1 == RatingInto(rows, t[i].0)
    ensures |t| == |Unique(Targets(rows))|
  {
    var nodes := SortedDistinct(Targets(rows));
    TargetsAreTargets(rows);
    KeysOfRatingRows(rows, nodes);
    RatingRows(rows, nodes)
  }

  lemma TargetsAreTargets(rows: seq<Edge>)
    ensures forall v :: v in Targets(rows) <==> IsTarget(rows, v)
  {
    forall v | v in Targets(rows)
      ensures IsTarget(rows, v)
    {
      var i :| 0 <= i < |rows| && Targets(rows)[i] == v;
      assert rows[i] in rows;
    }
  }

  lemma KeysOfRatingRows(rows: seq<Edge>, keys: seq<int>)
    ensures Keys(RatingRows(rows, keys)) == keys
  {
  }

  lemma RatingsAppend(a: seq<Edge>, e: Edge)
    ensures Ratings(a + [e]) == Ratings(a) + [e.rating]
  {
  }

  /** One more row adds its RATING to its own TARGET's sum only. */
  lemma RatingIntoExtend(init: seq<Edge>, e: Edge, v: int)
    ensures RatingInto(init + [e], v) == RatingInto(init, v) + if e.target == v then e.rating else 0
  {
    var rows := init + [e];
    assert rows[..|rows| - 1] == init;
    var w := Where(init, HasTarget(v));
    if e.target == v {
      assert Where(rows, HasTarget(v)) == w + [e];
      RatingsAppend(w, e);
      assert Ratings(w + [e])[..|w|] == Ratings(w);
    } else {
      assert Where(rows, HasTarget(v)) == w;
    }
  }

  lemma SumScoresSnoc(t: seq<(int, int)>, x: (int, int))
    ensures SumScores(t + [x]) == SumScores(t) + x.1
  {
    assert (t + [x])[..|t|] == t;
  }

  lemma {:induction false} RatingRowsEmpty(keys: seq<int>)
    ensures SumScores(RatingRows([], keys)) == 0
  {
    if keys != [] {
      var ks := keys[..|keys| - 1];
      RatingRowsEmpty(ks);
      assert RatingRows([], keys)[..|ks|] == RatingRows([], ks);
    }
  }

  lemma {:induction false} RatingRowsExtend(init: seq<Edge>, e: Edge, keys: seq<int>)
    requires Distinct(keys)
    ensures SumScores(RatingRows(init + [e], keys))
      == SumScores(RatingRows(init, keys)) + if e.target in keys then e.rating else 0
  {
    if keys != [] {
      var ks, k := keys[..|keys| - 1], keys[|keys| - 1];
      assert keys == ks + [k];
      assert k !in ks;
      RatingRowsExtend(init, e, ks);
      RatingIntoExtend(init, e, k);
      RatingRowsSnoc(init + [e], keys);
      RatingRowsSnoc(init, keys);
    }
  }

  /** The last key adds its own row's sum. */
  lemma RatingRowsSnoc(rows: seq<Edge>, keys: seq<int>)
    requires keys != []
    ensures SumScores(RatingRows(rows, keys))
      == SumScores(RatingRows(rows, keys[..|keys| - 1])) + RatingInto(rows, keys[|keys| - 1])
  {
    var ks, k := keys[..|keys| - 1], keys[|keys| - 1];
    SumScoresSnoc(RatingRows(rows, ks), (k, RatingInto(rows, k)));
  }

  /** With distinct keys that cover every TARGET, the rows' sums add up to
      the table's total rating. */
  lemma {:induction false} RatingRowsCover(rows: seq<Edge>, keys: seq<int>)
    requires Distinct(keys)
    requires forall i :: 0 <= i < |rows| ==> rows[i].target in keys
    ensures SumScores(RatingRows(rows, keys)) == TotalRating(rows)
  {
    if rows == [] {
      RatingRowsEmpty(keys);
    } else {
      var init, e := rows[..|rows| - 1], rows[|rows| - 1];
      assert rows == init + [e];
      RatingRowsCover(init, keys);
      RatingRowsExtend(init, e, keys);
      RatingsAppend(init, e);
      assert Ratings(rows)[..|init|] == Ratings(init);
    }
  }

  /** No rating is lost or counted twice: the overall ratings add up to the
      sum of every RATING in the table. */
  lemma OverallRatingsSumToTotal(rows: seq<Edge>)
    ensures SumScores(OverallRatings(rows)) == TotalRating(rows)
  {
    var nodes := SortedDistinct(Targets(rows));
    StrictlyIncreasingIsDistinct(nodes);
    RatingRowsCover(rows, nodes);
  }

  // ---------------------------------------------------------------------------
  // plot_top10
  // ---------------------------------------------------------------------------

  /** `data[0:9]` of the overall ratings sorted by value, descending: nine
      rows, not the ten the plot title announces. */
  const TopRows: nat := 9

  /** The rows kept for the bar chart: at most nine, from the overall
      ratings, in non-increasing order of rating, one per node, and no row
      left out rates higher than a row kept. */
  function TopRated(rows: seq<Edge>): (top: seq<(int, int)>)
    ensures |top| == if |OverallRatings(rows)| < TopRows then |OverallRatings(rows)| else TopRows
    ensures NonIncreasingScores(top)
    ensures DistinctKeys(top)
    ensures forall y :: y in top ==> y in OverallRatings(rows)
    ensures forall x, y :: x in OverallRatings(rows) && x !in top && y in top ==> x.1 <= y.1
  {
    var data := OverallRatings(rows);
    IncreasingKeysAreDistinct(data);
    TopK(data, TopRows)
  }

  lemma IncreasingKeysAreDistinct(t: seq<(int, int)>)
    requires StrictlyIncreasing(Keys(t))
    ensures DistinctKeys(t)
  {
    assert forall i, j :: 0 <= i < j < |t| ==> Keys(t)[i] < Keys(t)[j];
  }
}

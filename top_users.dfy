/** `Distribution.top_5_users_k`: the five users with the most interactions.

    The candidates are the distinct SOURCE values, in order of first
    appearance. For each one a loop appends to `tot_inter` the number of rows
    it sends plus the number of rows it receives, every row counted (repeated
    ratings of one pair included). The (user, count) pairs are sorted by
    count, descending, and the first five users are returned; the comment
    above the function speaks of ten. */
module TopUsers {
  import opened Seqs
  import opened Table

  /** How many users are returned (`head(5)`). */
  const TopUsersCount: nat := 5

  /** Rows sent by u plus rows received by u. */
  function Interactions(rows: seq<Edge>, u: int): nat {
    SentBy(rows, u) + ReceivedBy(rows, u)
  }

  predicate IsSource(rows: seq<Edge>, u: int) {
    exists e :: e in rows && e.source == u
  }

  lemma SourcesAreSources(rows: seq<Edge>)
    ensures forall u :: u in Sources(rows) <==> IsSource(rows, u)
  {
    forall u | u in Sources(rows)
      ensures IsSource(rows, u)
    {
      var i :| 0 <= i < |rows| && Sources(rows)[i] == u;
      assert rows[i] in rows;
    }
  }

  /** `list(zip(users, tot_inter))`. */
  function Zip(users: seq<int>, counts: seq<int>): (r: seq<(int, int)>)
    requires |users| == |counts|
    ensures |r| == |users| && forall i :: 0 <= i < |users| ==> r[i] == (users[i], counts[i])
  {
    seq(|users|, i requires 0 <= i < |users| => (users[i], counts[i]))
  }

  /** Returns min(5, number of distinct sources) different users, all of
      them sources, by non-increasing interaction count; no source left out
      has more interactions than a user returned. Users with equal counts
      may come in any order. */
  method Top5UsersK(rows: seq<Edge>) returns (top: seq<int>)
    ensures |top| == if |Unique(Sources(rows))| < TopUsersCount then |Unique(Sources(rows))| else TopUsersCount
    ensures Distinct(top)
    ensures forall u :: u in top ==> IsSource(rows, u)
    ensures forall i, j :: 0 <= i < j < |top| ==> Interactions(rows, top[i]) >= Interactions(rows, top[j])
    ensures forall u, w :: IsSource(rows, u) && u !in top && w in top ==>
      Interactions(rows, u) <= Interactions(rows, w)
  {
    var users := Unique(Sources(rows));
    var totInter := InteractionCounts(rows, users);
    var data := Zip(users, totInter);
    var ranked := TopK(data, TopUsersCount);
    top := Keys(ranked);
    TopUsersFromRanking(rows, data, ranked);
  }

  /** The loop that fills `tot_inter`: entry j is the interaction count of
      users[j]. */
  method InteractionCounts(rows: seq<Edge>, users: seq<int>) returns (totInter: seq<int>)
    ensures |totInter| == |users|
    ensures forall j :: 0 <= j < |users| ==> totInter[j] == Interactions(rows, users[j])
  {
    totInter := [];
    for i := 0 to |users|
      invariant |totInter| == i
      invariant forall j :: 0 <= j < i ==> totInter[j] == Interactions(rows, users[j])
    {
      var u := users[i];
      var numRatingsOut := SentBy(rows, u);
      var numRatingsIn := ReceivedBy(rows, u);
      totInter := totInter + [numRatingsOut + numRatingsIn];
    }
  }

  /** The method's promises, once the candidates are scored. */
  lemma TopUsersFromRanking(rows: seq<Edge>, data: seq<(int, int)>, ranked: seq<(int, int)>)
    requires |data| == |Unique(Sources(rows))|
    requires forall i :: 0 <= i < |data| ==>
      data[i] == (Unique(Sources(rows))[i], Interactions(rows, Unique(Sources(rows))[i]))
    requires ranked == TopK(data, TopUsersCount)
    ensures var top, n := Keys(ranked), |Unique(Sources(rows))|;
      && |top| == (if n < TopUsersCount then n else TopUsersCount)
      && Distinct(top)
      && (forall u :: u in top ==> IsSource(rows, u))
      && (forall i, j :: 0 <= i < j < |top| ==> Interactions(rows, top[i]) >= Interactions(rows, top[j]))
      && forall u, w :: IsSource(rows, u) && u !in top && w in top ==>
        Interactions(rows, u) <= Interactions(rows, w)
  {
    SourcesAreSources(rows);
    var users := Unique(Sources(rows));
    ZippedKeysDistinct(users, data);
    ExcludedRowsScoreLower(data, ranked);
    assert forall k :: 0 <= k < |ranked| ==> ranked[k] in data by {
      forall k | 0 <= k < |ranked|
        ensures ranked[k] in data
      {
        assert ranked[k] in ranked;
      }
    }
    RankedUsers(rows, users, data, ranked);
  }

  /** What the ranking of the scored candidates says about their users. */
  lemma RankedUsers(rows: seq<Edge>, users: seq<int>, data: seq<(int, int)>, ranked: seq<(int, int)>)
    requires |data| == |users|
    requires forall i :: 0 <= i < |users| ==> data[i] == (users[i], Interactions(rows, users[i]))
    requires NonIncreasingScores(ranked) && DistinctKeys(ranked)
    requires forall k :: 0 <= k < |ranked| ==> ranked[k] in data
    requires forall m, k :: 0 <= m < |data| && data[m].0 !in Keys(ranked) && 0 <= k < |ranked| ==>
      data[m].1 <= ranked[k].1
    ensures Distinct(Keys(ranked))
    ensures forall u :: u in Keys(ranked) ==> u in users
    ensures forall i, j :: 0 <= i < j < |ranked| ==>
      Interactions(rows, Keys(ranked)[i]) >= Interactions(rows, Keys(ranked)[j])
    ensures forall u, w :: u in users && u !in Keys(ranked) && w in Keys(ranked) ==>
      Interactions(rows, u) <= Interactions(rows, w)
  {
    ScoredRows(rows, users, data, ranked);
    forall u, w | u in users && u !in Keys(ranked) && w in Keys(ranked)
      ensures Interactions(rows, u) <= Interactions(rows, w)
    {
      var m :| 0 <= m < |users| && users[m] == u;
      var k :| 0 <= k < |ranked| && Keys(ranked)[k] == w;
      assert data[m].0 == u;
    }
  }

  lemma ZippedKeysDistinct(users: seq<int>, data: seq<(int, int)>)
    requires Distinct(users)
    requires |data| == |users| && forall i :: 0 <= i < |users| ==> data[i].0 == users[i]
    ensures DistinctKeys(data)
  {
  }

  /** Every ranked row is a candidate with its own count. */
  lemma ScoredRows(rows: seq<Edge>, users: seq<int>, data: seq<(int, int)>, ranked: seq<(int, int)>)
    requires |data| == |users|
    requires forall i :: 0 <= i < |users| ==> data[i] == (users[i], Interactions(rows, users[i]))
    requires forall k :: 0 <= k < |ranked| ==> ranked[k] in data
    ensures forall k :: 0 <= k < |ranked| ==> ranked[k].0 in users && ranked[k].1 == Interactions(rows, ranked[k].0)
  {
    forall k | 0 <= k < |ranked|
      ensures ranked[k].0 in users && ranked[k].1 == Interactions(rows, ranked[k].0)
    {
      var m :| 0 <= m < |data| && data[m] == ranked[k];
    }
  }

  lemma ExcludedRowsScoreLower(data: seq<(int, int)>, ranked: seq<(int, int)>)
    requires ranked == TopK(data, TopUsersCount)
    ensures forall m, k :: 0 <= m < |data| && data[m].0 !in Keys(ranked) && 0 <= k < |ranked| ==>
      data[m].1 <= ranked[k].1
  {
    forall m, k | 0 <= m < |data| && data[m].0 !in Keys(ranked) && 0 <= k < |ranked|
      ensures data[m].1 <= ranked[k].1
    {
      KeyOfMember(ranked, data[m]);
      assert data[m] in data && ranked[k] in ranked;
    }
  }

  lemma KeyOfMember(s: seq<(int, int)>, y: (int, int))
    ensures y in s ==> y.0 in Keys(s)
  {
    if y in s {
      var k :| 0 <= k < |s| && s[k] == y;
      assert Keys(s)[k] == y.0;
    }
  }
}

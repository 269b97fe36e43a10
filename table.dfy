/** The edge table: one row per rating, with the columns SOURCE, TARGET,
    RATING and TIME (TIME already parsed to an integer), kept in file order.
    `Where` is pandas boolean indexing (`df[df[col] == value]`): the rows that
    satisfy a condition, in their original order. */
module Table {
  import opened Seqs

  datatype Edge = Edge(source: int, target: int, rating: int, time: int)

  /** The rows of the table that satisfy keep, in table order. */
  function Where(rows: seq<Edge>, keep: Edge -> bool): (r: seq<Edge>)
    ensures |r| <= |rows|
    ensures forall e :: e in r <==> e in rows && keep(e)
  {
    if rows == [] then []
    else
      var init, last := rows[..|rows| - 1], rows[|rows| - 1];
      assert rows == init + [last];
      Where(init, keep) + (if keep(last) then [last] else [])
  }

  /** Each kept row occurs in the selection as often as in the table; every
      other row does not occur. */
  lemma {:induction false} WhereCounts(rows: seq<Edge>, keep: Edge -> bool)
    ensures forall e :: multiset(Where(rows, keep))[e] == if keep(e) then multiset(rows)[e] else 0
  {
    if rows != [] {
      var init, last := rows[..|rows| - 1], rows[|rows| - 1];
      assert rows == init + [last];
      WhereCounts(init, keep);
    }
  }

  /** Selecting rows commutes with splitting the table, so Where keeps the
      table's order. */
  lemma {:induction false} WhereAppend(a: seq<Edge>, b: seq<Edge>, keep: Edge -> bool)
    ensures Where(a + b, keep) == Where(a, keep) + Where(b, keep)
    decreases |b|
  {
    if b == [] {
      assert a + b == a;
    } else {
      var init, last := b[..|b| - 1], b[|b| - 1];
      var tail := if keep(last) then [last] else [];
      assert (a + b)[..|a + b| - 1] == a + init;
      assert Where(a + b, keep) == Where(a + init, keep) + tail;
      assert Where(b, keep) == Where(init, keep) + tail;
      WhereAppend(a, init, keep);
    }
  }

  /** Rows with a positive rating (pos_net.py). */
  predicate IsPositive(e: Edge) { e.rating > 0 }

  /** Rows with a negative rating (neg_net.py). */
  predicate IsNegative(e: Edge) { e.rating < 0 }

  /** Rows rated exactly zero: in neither signed table. */
  predicate IsZero(e: Edge) { e.rating == 0 }

  /** Rows whose SOURCE is u. */
  function HasSource(u: int): Edge -> bool {
    (e: Edge) => e.source == u
  }

  /** Rows whose TARGET is u. */
  function HasTarget(u: int): Edge -> bool {
    (e: Edge) => e.target == u
  }

  /** `len(df[df['SOURCE'] == u])`: rows sent by u. */
  function SentBy(rows: seq<Edge>, u: int): nat {
    |Where(rows, HasSource(u))|
  }

  /** `len(df[df['TARGET'] == u])`: rows received by u. */
  function ReceivedBy(rows: seq<Edge>, u: int): nat {
    |Where(rows, HasTarget(u))|
  }

  /** The positive, negative and zero-rated rows partition the table. */
  lemma {:induction false} SignPartition(rows: seq<Edge>)
    ensures |Where(rows, IsPositive)| + |Where(rows, IsNegative)| + |Where(rows, IsZero)| == |rows|
  {
    if rows != [] {
      SignPartition(rows[..|rows| - 1]);
    }
  }

  function Sources(rows: seq<Edge>): (r: seq<int>)
    ensures |r| == |rows| && forall i :: 0 <= i < |rows| ==> r[i] == rows[i].source
  {
    seq(|rows|, i requires 0 <= i < |rows| => rows[i].source)
  }

  function Targets(rows: seq<Edge>): (r: seq<int>)
    ensures |r| == |rows| && forall i :: 0 <= i < |rows| ==> r[i] == rows[i].target
  {
    seq(|rows|, i requires 0 <= i < |rows| => rows[i].target)
  }

  function Ratings(rows: seq<Edge>): (r: seq<int>)
    ensures |r| == |rows| && forall i :: 0 <= i < |rows| ==> r[i] == rows[i].rating
  {
    seq(|rows|, i requires 0 <= i < |rows| => rows[i].rating)
  }

  function Times(rows: seq<Edge>): (r: seq<int>)
    ensures |r| == |rows| && forall i :: 0 <= i < |rows| ==> r[i] == rows[i].time
  {
    seq(|rows|, i requires 0 <= i < |rows| => rows[i].time)
  }
}

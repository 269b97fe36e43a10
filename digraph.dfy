/** The graph builder: the directed graph that
    `nx.from_pandas_edgelist(df, source='SOURCE', target='TARGET',
    edge_attr='RATING', create_using=nx.DiGraph)` makes of an edge table, and
    the in- and out-degree views that the drivers turn into degree tables
    (`pd.DataFrame(net.in_degree, ...).sort_values(by='node')`) and means.

    The builder is a fold over the rows. Each row adds its SOURCE and then its
    TARGET to the node sequence when they are new, and sets the RATING of the
    edge (SOURCE, TARGET), so a pair that repeats keeps the rating of its last
    row. A DiGraph has no parallel edges, so a degree counts distinct
    neighbours, not rows. */
module DiGraphs {
  import opened Seqs
  import opened Table

  /** Nodes in insertion order, and the RATING attribute of each edge. */
  datatype DiGraph = DiGraph(nodes: seq<int>, rating: map<(int, int), int>)

  function PairOf(e: Edge): (int, int) {
    (e.source, e.target)
  }

  /** The distinct (SOURCE, TARGET) pairs of the table. */
  function PairSet(rows: seq<Edge>): set<(int, int)> {
    set e | e in rows :: PairOf(e)
  }

  lemma {:induction false} PairSetAtMostRows(rows: seq<Edge>)
    ensures |PairSet(rows)| <= |rows|
  {
    if rows != [] {
      var init, last := rows[..|rows| - 1], rows[|rows| - 1];
      assert rows == init + [last];
      PairSetAtMostRows(init);
      assert PairSet(rows) == PairSet(init) + {PairOf(last)};
    }
  }

  predicate IsEndpoint(rows: seq<Edge>, v: int) {
    exists e :: e in rows && (e.source == v || e.target == v)
  }

  /** SOURCE and TARGET of every row, row by row. */
  function Endpoints(rows: seq<Edge>): (r: seq<int>)
    ensures forall v :: v in r <==> IsEndpoint(rows, v)
  {
    if rows == [] then []
    else
      var init, last := rows[..|rows| - 1], rows[|rows| - 1];
      assert rows == init + [last];
      Endpoints(init) + [last.source, last.target]
  }

  /** Nodes are listed once each and every edge joins two nodes. */
  predicate WellFormed(g: DiGraph) {
    && Distinct(g.nodes)
    && forall p :: p in g.rating ==> p.0 in g.nodes && p.1 in g.nodes
  }

  /** One step of the builder: add_edge(SOURCE, TARGET) and set its RATING. */
  function AddRow(g: DiGraph, e: Edge): DiGraph {
    DiGraph(AddNew(AddNew(g.nodes, e.source), e.target), g.rating[PairOf(e) := e.rating])
  }

  /** What one step does: existing nodes keep their places and unseen
      endpoints are appended; the pair's edge is created or overwritten with
      this RATING, and every other edge keeps its rating. */
  lemma AddRowEffect(g: DiGraph, e: Edge)
    ensures var r := AddRow(g, e);
      && r.nodes[..|g.nodes|] == g.nodes
      && (forall v :: v in r.nodes <==> v in g.nodes || v == e.source || v == e.target)
      && r.rating.Keys == g.rating.Keys + {PairOf(e)}
      && r.rating[PairOf(e)] == e.rating
      && (forall p :: p in g.rating && p != PairOf(e) ==> r.rating[p] == g.rating[p])
  {
    var once := AddNew(g.nodes, e.source);
    assert once[..|g.nodes|] == g.nodes;
    assert AddNew(once, e.target)[..|once|] == once;
  }

  /** The graph of the table: its nodes are the distinct endpoints in order
      of first appearance and its edges the distinct (SOURCE, TARGET) pairs. */
  function FromEdgeList(rows: seq<Edge>): (g: DiGraph)
    ensures g.nodes == Unique(Endpoints(rows))
    ensures forall v :: v in g.nodes <==> IsEndpoint(rows, v)
    ensures g.rating.Keys == PairSet(rows)
    ensures WellFormed(g)
  {
    if rows == [] then DiGraph([], map[])
    else
      var init, last := rows[..|rows| - 1], rows[|rows| - 1];
      assert rows == init + [last];
      var ends := Endpoints(init);
      var ends' := ends + [last.source, last.target];
      assert ends'[..|ends'| - 1] == ends + [last.source];
      assert (ends + [last.source])[..|ends|] == ends;
      AddRow(FromEdgeList(init), last)
  }

  /** Every stored rating is the RATING of some row with that pair. */
  lemma {:induction false} RatingFromSomeRow(rows: seq<Edge>, p: (int, int))
    requires p in FromEdgeList(rows).rating
    ensures exists e :: e in rows && PairOf(e) == p && e.rating == FromEdgeList(rows).rating[p]
  {
    var init, last := rows[..|rows| - 1], rows[|rows| - 1];
    var g := FromEdgeList(init);
    assert FromEdgeList(rows) == AddRow(g, last);
    if p != PairOf(last) {
      RatingFromSomeRow(init, p);
      var e :| e in init && PairOf(e) == p && e.rating == g.rating[p];
      assert e in rows;
    } else {
      assert last in rows;
    }
  }

  /** The nodes come in the order in which they first occur as an endpoint. */
  lemma NodesInFirstAppearanceOrder(rows: seq<Edge>)
    ensures var g := FromEdgeList(rows);
      forall i, j :: 0 <= i < j < |g.nodes| ==>
        FirstIndex(Endpoints(rows), g.nodes[i]) < FirstIndex(Endpoints(rows), g.nodes[j])
  {
    UniqueFirstAppearanceOrder(Endpoints(rows));
  }

  /** When a (SOURCE, TARGET) pair repeats, the edge keeps the RATING of the
      last row with that pair. */
  lemma {:induction false} LastRatingWins(rows: seq<Edge>, k: nat)
    requires k < |rows|
    requires forall j :: k < j < |rows| ==> PairOf(rows[j]) != PairOf(rows[k])
    ensures PairOf(rows[k]) in FromEdgeList(rows).rating
    ensures FromEdgeList(rows).rating[PairOf(rows[k])] == rows[k].rating
  {
    var init := rows[..|rows| - 1];
    if k < |rows| - 1 {
      assert rows[k] == init[k];
      LastRatingWins(init, k);
    }
  }

  /** The graph of a selection of rows stores, for a pair, the RATING of the
      last selected row with that pair. */
  lemma LastKeptRatingWins(rows: seq<Edge>, keep: Edge -> bool, k: nat)
    requires k < |rows| && keep(rows[k])
    requires forall j :: k < j < |rows| && keep(rows[j]) ==> PairOf(rows[j]) != PairOf(rows[k])
    ensures PairOf(rows[k]) in FromEdgeList(Where(rows, keep)).rating
    ensures FromEdgeList(Where(rows, keep)).rating[PairOf(rows[k])] == rows[k].rating
  {
    var a, b := Where(rows[..k], keep) + [rows[k]], Where(rows[k + 1..], keep);
    SplitAtKept(rows, keep, k);
    LaterKeptRowsOtherPairs(rows, keep, k);
    RowSetsRating(Where(rows[..k], keep), rows[k]);
    SuffixKeepsRating(a, b, PairOf(rows[k]));
  }

  /** The selection around a kept row: what is kept before it, the row, and
      what is kept after it. */
  lemma SplitAtKept(rows: seq<Edge>, keep: Edge -> bool, k: nat)
    requires k < |rows| && keep(rows[k])
    ensures Where(rows, keep) == Where(rows[..k], keep) + [rows[k]] + Where(rows[k + 1..], keep)
  {
    var pre, post := rows[..k + 1], rows[k + 1..];
    assert rows == pre + post;
    WhereAppend(pre, post, keep);
    WhereSnoc(pre, keep);
    assert pre[..k] == rows[..k];
  }

  lemma LaterKeptRowsOtherPairs(rows: seq<Edge>, keep: Edge -> bool, k: nat)
    requires k < |rows|
    requires forall j :: k < j < |rows| && keep(rows[j]) ==> PairOf(rows[j]) != PairOf(rows[k])
    ensures forall e :: e in Where(rows[k + 1..], keep) ==> PairOf(e) != PairOf(rows[k])
  {
    var post := rows[k + 1..];
    forall e | e in Where(post, keep)
      ensures PairOf(e) != PairOf(rows[k])
    {
      var j :| 0 <= j < |post| && post[j] == e;
      assert rows[k + 1 + j] == e;
    }
  }

  /** Rows of other pairs appended to a table leave a pair's rating as it
      was. */
  lemma {:induction false} SuffixKeepsRating(a: seq<Edge>, b: seq<Edge>, p: (int, int))
    requires p in FromEdgeList(a).rating
    requires forall e :: e in b ==> PairOf(e) != p
    ensures p in FromEdgeList(a + b).rating
    ensures FromEdgeList(a + b).rating[p] == FromEdgeList(a).rating[p]
    decreases |b|
  {
    if b != [] {
      var init, last := b[..|b| - 1], b[|b| - 1];
      assert a + b == (a + init) + [last];
      assert forall e :: e in init ==> e in b;
      SuffixKeepsRating(a, init, p);
      assert last in b;
      OtherRowKeepsRating(a + init, last, p);
    } else {
      assert a + b == a;
    }
  }

  lemma RowSetsRating(rows: seq<Edge>, e: Edge)
    ensures PairOf(e) in FromEdgeList(rows + [e]).rating
    ensures FromEdgeList(rows + [e]).rating[PairOf(e)] == e.rating
  {
    BuildSnoc(rows, e);
  }

  lemma OtherRowKeepsRating(rows: seq<Edge>, e: Edge, p: (int, int))
    requires p in FromEdgeList(rows).rating && PairOf(e) != p
    ensures p in FromEdgeList(rows + [e]).rating
    ensures FromEdgeList(rows + [e]).rating[p] == FromEdgeList(rows).rating[p]
  {
    BuildSnoc(rows, e);
  }

  lemma WhereSnoc(rows: seq<Edge>, keep: Edge -> bool)
    requires rows != []
    ensures Where(rows, keep)
      == Where(rows[..|rows| - 1], keep) + if keep(rows[|rows| - 1]) then [rows[|rows| - 1]] else []
  {
  }

  lemma BuildSnoc(rows: seq<Edge>, e: Edge)
    ensures FromEdgeList(rows + [e]) == AddRow(FromEdgeList(rows), e)
  {
    assert (rows + [e])[..|rows|] == rows;
  }

  // ---------------------------------------------------------------------------
  // In- and out-degree
  // ---------------------------------------------------------------------------

  datatype Dir = In | Out

  /** The end of edge p at which a degree in direction d is counted. */
  function Toward(p: (int, int), d: Dir): int {
    if d == In then p.1 else p.0
  }

  /** The other end of edge p. */
  function Away(p: (int, int), d: Dir): int {
    if d == In then p.0 else p.1
  }

  /** Edges into v (d == In) or out of v (d == Out). */
  function Incident(g: DiGraph, d: Dir, v: int): set<(int, int)> {
    set p | p in g.rating && Toward(p, d) == v
  }

  /** Predecessors of v (d == In) or successors of v (d == Out). */
  function Neighbours(g: DiGraph, d: Dir, v: int): set<int> {
    set p | p in g.rating && Toward(p, d) == v :: Away(p, d)
  }

  /** `net.in_degree[v]` or `net.out_degree[v]`: distinct neighbours. */
  function Degree(g: DiGraph, d: Dir, v: int): nat {
    |Neighbours(g, d, v)|
  }

  lemma {:induction false} ProjectionCard(s: set<(int, int)>, d: Dir, v: int)
    requires forall p :: p in s ==> Toward(p, d) == v
    ensures |set p | p in s :: Away(p, d)| == |s|
    decreases |s|
  {
    if s != {} {
      var x :| x in s;
      var s' := s - {x};
      ProjectionCard(s', d, v);
      assert (set p | p in s :: Away(p, d)) == (set p | p in s' :: Away(p, d)) + {Away(x, d)};
    }
  }

  /** A degree counts the edges at v: each neighbour stands for one edge. */
  lemma DegreeIsIncidentEdges(g: DiGraph, d: Dir, v: int)
    ensures Degree(g, d, v) == |Incident(g, d, v)|
  {
    ProjectionCard(Incident(g, d, v), d, v);
    assert Neighbours(g, d, v) == set p | p in Incident(g, d, v) :: Away(p, d);
  }

  /** Which rows a degree in direction d at v is drawn from. */
  function At(d: Dir, v: int): Edge -> bool {
    if d == In then HasTarget(v) else HasSource(v)
  }

  /** A degree never exceeds the number of rows it is drawn from: repeated
      ratings of one pair give one edge. */
  lemma {:induction false} DegreeAtMostRowCount(rows: seq<Edge>, d: Dir, v: int)
    ensures Degree(FromEdgeList(rows), d, v) <= |Where(rows, At(d, v))|
  {
    if rows != [] {
      var init, e := rows[..|rows| - 1], rows[|rows| - 1];
      assert rows == init + [e];
      DegreeAtMostRowCount(init, d, v);
      DegreeAfterRow(FromEdgeList(init), e, d, v);
    }
  }

  /** One more row adds at most one neighbour, and only at its own end. */
  lemma DegreeAfterRow(g: DiGraph, e: Edge, d: Dir, v: int)
    ensures Degree(AddRow(g, e), d, v) <= Degree(g, d, v) + if At(d, v)(e) then 1 else 0
  {
    var g' := AddRow(g, e);
    var extra: set<int> := if Toward(PairOf(e), d) == v then {Away(PairOf(e), d)} else {};
    var before, after := Neighbours(g, d, v), Neighbours(g', d, v);
    forall u | u in after
      ensures u in before + extra
    {
      var p :| p in g'.rating && Toward(p, d) == v && Away(p, d) == u;
      if p != PairOf(e) {
        assert p in g.rating;
      }
    }
    SubsetCard(after, before + extra);
  }

  lemma SubsetCard<T>(a: set<T>, b: set<T>)
    requires a <= b
    ensures |a| <= |b|
  {
    assert b == a + (b - a);
  }

  /** The graph of a selection of rows is a subgraph of the full graph, so no
      degree grows. */
  lemma FilteredSubgraph(rows: seq<Edge>, keep: Edge -> bool)
    ensures var sub, full := FromEdgeList(Where(rows, keep)), FromEdgeList(rows);
      && sub.rating.Keys <= full.rating.Keys
      && (forall v :: v in sub.nodes ==> v in full.nodes)
      && forall d, v :: Degree(sub, d, v) <= Degree(full, d, v)
  {
    var sel := Where(rows, keep);
    var sub, full := FromEdgeList(sel), FromEdgeList(rows);
    assert sub.rating.Keys <= full.rating.Keys;
    forall v | v in sub.nodes
      ensures v in full.nodes
    {
      assert IsEndpoint(sel, v);
      var e :| e in sel && (e.source == v || e.target == v);
      assert IsEndpoint(rows, v);
    }
    forall d, v
      ensures Degree(sub, d, v) <= Degree(full, d, v)
    {
      SubsetCard(Neighbours(sub, d, v), Neighbours(full, d, v));
    }
  }

  // ---------------------------------------------------------------------------
  // Degree tables and their means
  // ---------------------------------------------------------------------------

  datatype DegreeRow = DegreeRow(node: int, degree: nat)

  function DegreeRows(g: DiGraph, d: Dir, vs: seq<int>): (t: seq<DegreeRow>)
    ensures |t| == |vs|
    ensures forall i :: 0 <= i < |vs| ==> t[i] == DegreeRow(vs[i], Degree(g, d, vs[i]))
  {
    if vs == [] then []
    else DegreeRows(g, d, vs[..|vs| - 1]) + [DegreeRow(vs[|vs| - 1], Degree(g, d, vs[|vs| - 1]))]
  }

  /** `pd.DataFrame(net.in_degree / net.out_degree, columns=['node', 'degree'])
      .sort_values(by='node')`: one row per node, by ascending node id. */
  function DegreeTable(g: DiGraph, d: Dir): (t: seq<DegreeRow>)
    ensures forall i, j :: 0 <= i < j < |t| ==> t[i].node < t[j].node
    ensures forall v :: v in g.nodes <==> v in NodeColumn(t)
    ensures forall i :: 0 <= i < |t| ==> t[i].degree == Degree(g, d, t[i].node)
    ensures Distinct(g.nodes) ==> |t| == |g.nodes|
  {
    var vs := SortedDistinct(g.nodes);
    var t := DegreeRows(g, d, vs);
    assert NodeColumn(t) == vs;
    t
  }

  function NodeColumn(t: seq<DegreeRow>): (r: seq<int>)
    ensures |r| == |t| && forall i :: 0 <= i < |t| ==> r[i] == t[i].node
  {
    seq(|t|, i requires 0 <= i < |t| => t[i].node)
  }

  function DegreeSum(t: seq<DegreeRow>): int {
    if t == [] then 0 else DegreeSum(t[..|t| - 1]) + t[|t| - 1].degree
  }

  /** `df['degree'].mean()`; the mean of an empty table is NaN, here None. */
  /** `.mean()` of a degree column: None (pandas' NaN) exactly for an empty
      table, and otherwise the value that, times the number of rows, gives
      the sum of the degrees. */
  function MeanDegree(t: seq<DegreeRow>): (m: Option<real>)
    ensures m.None? <==> t == []
    ensures m.Some? ==> m.value * |t| as real == DegreeSum(t) as real
  {
    if t == [] then None else Some(DegreeSum(t) as real / |t| as real)
  }

  /** Edges whose counted end is one of vs. */
  function EdgesAt(g: DiGraph, d: Dir, vs: seq<int>): set<(int, int)> {
    set p | p in g.rating && Toward(p, d) in vs
  }

  lemma EdgesAtSplit(g: DiGraph, d: Dir, vs: seq<int>)
    requires vs != []
    ensures EdgesAt(g, d, vs) == EdgesAt(g, d, vs[..|vs| - 1]) + Incident(g, d, vs[|vs| - 1])
  {
    assert vs == vs[..|vs| - 1] + [vs[|vs| - 1]];
  }

  lemma {:induction false} DegreeSumCountsEdges(g: DiGraph, d: Dir, vs: seq<int>)
    requires Distinct(vs)
    ensures DegreeSum(DegreeRows(g, d, vs)) == |EdgesAt(g, d, vs)|
  {
    if vs == [] {
      assert EdgesAt(g, d, vs) == {};
    } else {
      var ws, w := vs[..|vs| - 1], vs[|vs| - 1];
      DegreeSumCountsEdges(g, d, ws);
      DegreeIsIncidentEdges(g, d, w);
      EdgesAtSplit(g, d, vs);
      assert w !in ws;
      assert EdgesAt(g, d, ws) * Incident(g, d, w) == {};
      assert DegreeRows(g, d, vs)[..|vs| - 1] == DegreeRows(g, d, ws);
    }
  }

  lemma AllEdgesCovered(g: DiGraph, d: Dir, vs: seq<int>)
    requires WellFormed(g)
    requires forall v :: v in g.nodes ==> v in vs
    ensures EdgesAt(g, d, vs) == g.rating.Keys
  {
    forall p | p in g.rating
      ensures Toward(p, d) in vs
    {
      assert Toward(p, d) in g.nodes;
    }
  }

  /** Every edge adds one to exactly one in-degree and one out-degree, so both
      degree tables sum to the number of edges. */
  lemma Handshake(g: DiGraph)
    requires WellFormed(g)
    ensures DegreeSum(DegreeTable(g, In)) == |g.rating.Keys|
    ensures DegreeSum(DegreeTable(g, Out)) == |g.rating.Keys|
  {
    var vs := SortedDistinct(g.nodes);
    StrictlyIncreasingIsDistinct(vs);
    DegreeSumCountsEdges(g, In, vs);
    DegreeSumCountsEdges(g, Out, vs);
    AllEdgesCovered(g, In, vs);
    AllEdgesCovered(g, Out, vs);
  }

  /** The number of edges over the number of nodes; None for no nodes. */
  function EdgesPerNode(g: DiGraph): Option<real> {
    if g.nodes == [] then None else Some(|g.rating.Keys| as real / |g.nodes| as real)
  }

  /** Either mean degree is the number of edges per node. */
  lemma MeanIsEdgesPerNode(g: DiGraph, d: Dir)
    requires WellFormed(g)
    ensures MeanDegree(DegreeTable(g, d)) == EdgesPerNode(g)
  {
    Handshake(g);
  }

  /** The mean in-degree equals the mean out-degree. */
  lemma MeansAgree(g: DiGraph)
    requires WellFormed(g)
    ensures MeanDegree(DegreeTable(g, In)) == MeanDegree(DegreeTable(g, Out))
  {
    Handshake(g);
  }
}

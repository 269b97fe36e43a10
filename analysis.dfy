/** The computation each driver's `main` runs on its edge table: build the
    directed graph, tabulate in- and out-degrees by ascending node id, take
    the mean of each degree column and compute both degree distributions. */
module Analysis {
  import opened Seqs
  import opened Table
  import opened DiGraphs
  import opened DegreeDistribution

  /** What `main` holds after its last statement: `net`, `in_degree_df`,
      `out_degree_df`, `mean_in_degree`, `mean_out_degree`, `in_distro` and
      `out_distro`. A mean is None where pandas would give NaN. */
  datatype Report = Report(
    net: DiGraph,
    inDegree: seq<DegreeRow>,
    outDegree: seq<DegreeRow>,
    meanIn: Option<real>,
    meanOut: Option<real>,
    inDistro: Distribution,
    outDistro: Distribution)

  /** The graph's nodes are the table's endpoints and its edges the
      distinct (SOURCE, TARGET) pairs; each degree table is the graph's
      degree table, one row per node in ascending node order; each
      distribution is the distribution of its degree table; both means are
      the number of edges over the number of nodes (so they agree); each
      distribution's counts add up to the number of nodes. */
  function Analyze(rows: seq<Edge>): (r: Report)
    ensures forall v :: v in r.net.nodes <==> IsEndpoint(rows, v)
    ensures r.net.rating.Keys == PairSet(rows)
    ensures r.inDegree == DegreeTable(r.net, In) && r.outDegree == DegreeTable(r.net, Out)
    ensures r.inDistro == Distributions(r.inDegree) && r.outDistro == Distributions(r.outDegree)
    ensures |r.inDegree| == |r.net.nodes| && |r.outDegree| == |r.net.nodes|
    ensures forall i, j :: 0 <= i < j < |r.inDegree| ==> r.inDegree[i].node < r.inDegree[j].node
    ensures forall v :: v in r.net.nodes <==> v in NodeColumn(r.inDegree)
    ensures forall i :: 0 <= i < |r.inDegree| ==> r.inDegree[i].degree == Degree(r.net, In, r.inDegree[i].node)
    ensures forall i :: 0 <= i < |r.outDegree| ==> r.outDegree[i].degree == Degree(r.net, Out, r.outDegree[i].node)
    ensures r.meanIn == r.meanOut
    ensures rows == [] <==> r.net.nodes == []
    ensures r.meanIn == EdgesPerNode(r.net)
    ensures SumInts(r.inDistro.n) == |r.net.nodes| && SumInts(r.outDistro.n) == |r.net.nodes|
  {
    var net := FromEdgeList(rows);
    NoRowsNoNodes(rows);
    var inSide, outSide := DegreeView(net, In), DegreeView(net, Out);
    Report(net, inSide.table, outSide.table, inSide.mean, outSide.mean, inSide.distro, outSide.distro)
  }

  /** A degree table, its mean and its distribution. */
  datatype View = View(table: seq<DegreeRow>, mean: Option<real>, distro: Distribution)

  /** One direction of the analysis: the degree table by node, its mean,
      the number of edges per node, and its distribution, whose counts add
      up to the number of nodes. */
  function DegreeView(g: DiGraph, d: Dir): (w: View)
    requires WellFormed(g)
    ensures w.table == DegreeTable(g, d) && w.distro == Distributions(w.table)
    ensures |w.table| == |g.nodes|
    ensures forall i :: 0 <= i < |w.table| ==> w.table[i].degree == Degree(g, d, w.table[i].node)
    ensures w.mean == EdgesPerNode(g)
    ensures SumInts(w.distro.n) == |g.nodes|
  {
    var t := DegreeTable(g, d);
    MeanIsEdgesPerNode(g, d);
    CountsSumToRows(t);
    View(t, MeanDegree(t), Distributions(t))
  }

  lemma NoRowsNoNodes(rows: seq<Edge>)
    ensures rows == [] <==> FromEdgeList(rows).nodes == []
  {
    if rows != [] {
      assert rows[0] in rows;
      assert rows[0].source in FromEdgeList(rows).nodes;
    }
  }

  /** The degrees a distribution lists are exactly the degrees of the
      graph's nodes. */
  lemma DistroKeysAreDegrees(g: DiGraph, d: Dir)
    ensures var t := DegreeTable(g, d);
      forall x :: x in Distributions(t).k <==> exists v :: v in g.nodes && Degree(g, d, v) == x
  {
    var t := DegreeTable(g, d);
    forall x | x in DegreeColumn(t)
      ensures exists v :: v in g.nodes && Degree(g, d, v) == x
    {
      var i :| 0 <= i < |t| && DegreeColumn(t)[i] == x;
      assert NodeColumn(t)[i] == t[i].node;
    }
    forall v | v in g.nodes
      ensures Degree(g, d, v) in DegreeColumn(t)
    {
      var i :| 0 <= i < |t| && NodeColumn(t)[i] == v;
      assert DegreeColumn(t)[i] == Degree(g, d, v);
    }
  }
}

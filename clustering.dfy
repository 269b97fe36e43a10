/** `Distribution.cc_by_degree`: the local clustering coefficient of every
    node of the undirected view of the graph, averaged over the nodes of
    each degree.

    `graph.to_undirected()` keeps the nodes in order and turns every directed
    edge into an unordered pair, so u -> v and v -> u become one link. The
    local coefficient of v is 2 T(v) / (d(v) (d(v) - 1)), where d(v) is the
    number of neighbours of v other than itself and T(v) the number of links
    between two of them; it is 0 when d(v) < 2. The degree column is the
    undirected degree, in which a self-loop counts twice. */
module Clustering {
  import opened Seqs
  import opened DiGraphs

  /** Nodes in the order of the directed graph; links as (smaller, larger)
      pairs. */
  datatype UGraph = UGraph(nodes: seq<int>, links: set<(int, int)>)

  function Unordered(p: (int, int)): (int, int) {
    if p.0 <= p.1 then p else (p.1, p.0)
  }

  function ToUndirected(g: DiGraph): UGraph {
    UGraph(g.nodes, set p | p in g.rating :: Unordered(p))
  }

  predicate Adjacent(h: UGraph, u: int, v: int) {
    Unordered((u, v)) in h.links
  }

  /** u and v are linked exactly when an edge runs between them in either
      direction. */
  lemma AdjacentIffEitherDirection(g: DiGraph, u: int, v: int)
    ensures Adjacent(ToUndirected(g), u, v) <==> (u, v) in g.rating || (v, u) in g.rating
  {
    var h := ToUndirected(g);
    if Adjacent(h, u, v) {
      var p :| p in g.rating && Unordered(p) == Unordered((u, v));
    }
  }

  /** Adding the reverse of an existing edge leaves the undirected view as
      it was. */
  lemma ReverseEdgeCollapses(g: DiGraph, u: int, v: int, r: int)
    requires (u, v) in g.rating
    ensures ToUndirected(DiGraph(g.nodes, g.rating[(v, u) := r])) == ToUndirected(g)
  {
    var g' := DiGraph(g.nodes, g.rating[(v, u) := r]);
    assert Unordered((v, u)) == Unordered((u, v));
    assert ToUndirected(g').links == ToUndirected(g).links;
  }

  /** The members of s, other than v, linked to v, in the order of s. */
  function LinkedIn(h: UGraph, v: int, s: seq<int>): (r: seq<int>)
    ensures |r| <= |s|
    ensures forall x :: x in r <==> x in s && x != v && Adjacent(h, x, v)
    ensures Distinct(s) ==> Distinct(r)
  {
    if s == [] then []
    else
      var init, x := s[..|s| - 1], s[|s| - 1];
      assert s == init + [x];
      LinkedIn(h, v, init) + if x != v && Adjacent(h, x, v) then [x] else []
  }

  /** The neighbours of v other than v, each once. */
  function NeighbourSeq(h: UGraph, v: int): (r: seq<int>)
    ensures Distinct(r)
    ensures forall x :: x in r <==> x in h.nodes && x != v && Adjacent(h, x, v)
  {
    var ns := SortedDistinct(h.nodes);
    StrictlyIncreasingIsDistinct(ns);
    LinkedIn(h, v, ns)
  }

  /** `graph.degree()[v]` on the undirected view: distinct neighbours, and
      two more for a self-loop. */
  function UDegree(h: UGraph, v: int): nat {
    |NeighbourSeq(h, v)| + if Adjacent(h, v, v) then 2 else 0
  }

  /** How many members of s are linked to x. */
  function LinksTo(h: UGraph, x: int, s: seq<int>): (n: nat)
    ensures n <= |s|
  {
    if s == [] then 0
    else LinksTo(h, x, s[..|s| - 1]) + if Adjacent(h, x, s[|s| - 1]) then 1 else 0
  }

  /** How many pairs of members of s are linked: each pair counted once,
      so at most |s| (|s| - 1) / 2. */
  function LinkedPairs(h: UGraph, s: seq<int>): (n: nat)
    ensures 2 * n <= |s| * (|s| - 1)
  {
    if s == [] then 0
    else
      var init := s[..|s| - 1];
      var a, b := LinkedPairs(h, init), LinksTo(h, s[|s| - 1], init);
      assert |s| * (|s| - 1) == |init| * (|init| - 1) + 2 * |init|;
      a + b
  }

  /** T(v): links between two neighbours of v. */
  function Triangles(h: UGraph, v: int): nat {
    LinkedPairs(h, NeighbourSeq(h, v))
  }

  /** The position pairs i < j of s whose members are linked. */
  function LinkedPositionPairs(h: UGraph, s: seq<int>): set<(int, int)> {
    set i, j | 0 <= i < j < |s| && Adjacent(h, s[i], s[j]) :: (i, j)
  }

  /** LinksTo counts the positions of s linked to x; c tags them. */
  lemma {:induction false} LinksToCountsPositions(h: UGraph, x: int, s: seq<int>, c: int)
    ensures LinksTo(h, x, s) == |set i | 0 <= i < |s| && Adjacent(h, s[i], x) :: (i, c)|
  {
    if s != [] {
      var n := |s| - 1;
      var init := s[..n];
      LinksToCountsPositions(h, x, init, c);
      var a := set i | 0 <= i < |init| && Adjacent(h, init[i], x) :: (i, c);
      var b := set i | 0 <= i < |s| && Adjacent(h, s[i], x) :: (i, c);
      assert Unordered((x, s[n])) == Unordered((s[n], x));
      if Adjacent(h, s[n], x) {
        assert b == a + {(n, c)};
      } else {
        assert b == a;
      }
    }
  }

  /** LinkedPairs counts each linked pair of positions once: it is the
      number of position pairs i < j of s whose members are linked. */
  lemma {:induction false} LinkedPairsCountsPositionPairs(h: UGraph, s: seq<int>)
    ensures LinkedPairs(h, s) == |LinkedPositionPairs(h, s)|
  {
    if s != [] {
      var n := |s| - 1;
      var init := s[..n];
      LinkedPairsCountsPositionPairs(h, init);
      LinksToCountsPositions(h, s[n], init, n);
      PositionPairsSnoc(h, s);
    }
  }

  /** The linked position pairs of s are those of s without its last
      member, plus the pairs that end at the last position; the two parts
      are disjoint. */
  lemma PositionPairsSnoc(h: UGraph, s: seq<int>)
    requires s != []
    ensures var n, init := |s| - 1, s[..|s| - 1];
      var earlier := LinkedPositionPairs(h, init);
      var last := set i | 0 <= i < |init| && Adjacent(h, init[i], s[n]) :: (i, n);
      LinkedPositionPairs(h, s) == earlier + last && earlier * last == {}
  {
    var n, init := |s| - 1, s[..|s| - 1];
    var earlier := LinkedPositionPairs(h, init);
    var last := set i | 0 <= i < |init| && Adjacent(h, init[i], s[n]) :: (i, n);
    forall p | p in LinkedPositionPairs(h, s)
      ensures p in earlier + last
    {
      var i, j :| 0 <= i < j < |s| && Adjacent(h, s[i], s[j]) && p == (i, j);
      if j < n {
        assert init[i] == s[i] && init[j] == s[j];
      } else {
        assert init[i] == s[i];
      }
    }
    forall p | p in earlier + last
      ensures p in LinkedPositionPairs(h, s)
    {
      if p in earlier {
        var i, j :| 0 <= i < j < |init| && Adjacent(h, init[i], init[j]) && p == (i, j);
        assert init[i] == s[i] && init[j] == s[j];
      } else {
        var i :| 0 <= i < |init| && Adjacent(h, init[i], s[n]) && p == (i, n);
        assert init[i] == s[i];
      }
    }
  }

  /** T(v) is the number of pairs of distinct neighbours of v that are
      linked, each pair counted once. */
  lemma TrianglesArePairsOfLinkedNeighbours(h: UGraph, v: int)
    ensures Triangles(h, v) == |LinkedPositionPairs(h, NeighbourSeq(h, v))|
  {
    LinkedPairsCountsPositionPairs(h, NeighbourSeq(h, v));
  }

  lemma FractionAtMostOne(a: nat, b: nat)
    requires 0 < b && a <= b
    ensures 0.0 <= a as real / b as real <= 1.0
  {
  }

  lemma PairsPositive(d: nat)
    requires d >= 2
    ensures d * (d - 1) > 0
  {
    assert d * (d - 1) == d * d - d;
  }

  /** The local clustering coefficient: a value in [0, 1], and 0 for a node
      with fewer than two neighbours. */
  function LocalClustering(h: UGraph, v: int): (c: real)
    ensures 0.0 <= c <= 1.0
    ensures |NeighbourSeq(h, v)| < 2 ==> c == 0.0
  {
    var d := |NeighbourSeq(h, v)|;
    if d < 2 then 0.0
    else
      var t, pairs := Triangles(h, v), d * (d - 1);
      PairsPositive(d);
      FractionAtMostOne(2 * t, pairs);
      (2 * t) as real / pairs as real
  }

  /** A node of undirected degree below two has coefficient 0. */
  lemma SmallDegreeNoClustering(h: UGraph, v: int)
    requires UDegree(h, v) < 2
    ensures LocalClustering(h, v) == 0.0
  {
  }

  // ---------------------------------------------------------------------------
  // The frame df_cc and the averages per degree
  // ---------------------------------------------------------------------------

  datatype CcRow = CcRow(node: int, cc: real, degree: int)

  /** `df_cc`: one row per node, in node order, with its coefficient and its
      undirected degree; every coefficient lies in [0, 1], and a node of
      degree below two has coefficient 0. */
  function CcTable(h: UGraph): (t: seq<CcRow>)
    ensures |t| == |h.nodes|
    ensures forall i :: 0 <= i < |t| ==> t[i].node == h.nodes[i]
    ensures forall i :: 0 <= i < |t| ==>
      t[i].degree == UDegree(h, t[i].node) && t[i].cc == LocalClustering(h, t[i].node)
    ensures forall i :: 0 <= i < |t| ==> 0.0 <= t[i].cc <= 1.0
    ensures forall i :: 0 <= i < |t| ==> t[i].degree < 2 ==> t[i].cc == 0.0
  {
    seq(|h.nodes|, i requires 0 <= i < |h.nodes| =>
      CcRow(h.nodes[i], LocalClustering(h, h.nodes[i]), UDegree(h, h.nodes[i])))
  }

  function CcDegrees(t: seq<CcRow>): (r: seq<int>)
    ensures |r| == |t| && forall i :: 0 <= i < |t| ==> r[i] == t[i].degree
  {
    seq(|t|, i requires 0 <= i < |t| => t[i].degree)
  }

  /** `df_cc[df_cc['degree'] == k]['cc']`: coefficients of rows of degree k. */
  function GroupCc(t: seq<CcRow>, k: int): (r: seq<real>)
    ensures forall x :: x in r ==> exists row :: row in t && row.degree == k && row.cc == x
    ensures k in CcDegrees(t) ==> r != []
  {
    if t == [] then []
    else
      var init, last := t[..|t| - 1], t[|t| - 1];
      assert t == init + [last];
      assert k in CcDegrees(t) && k != last.degree ==> k in CcDegrees(init) by {
        if k in CcDegrees(t) && k != last.degree {
          var i :| 0 <= i < |t| && CcDegrees(t)[i] == k;
          assert CcDegrees(init)[i] == k;
        }
      }
      GroupCc(init, k) + if last.degree == k then [last.cc] else []
  }

  /** The group misses no row: every row of degree k contributes its
      coefficient, and there is one entry per such row. */
  lemma {:induction false} GroupCcComplete(t: seq<CcRow>, k: int)
    ensures forall row :: row in t && row.degree == k ==> row.cc in GroupCc(t, k)
    ensures |GroupCc(t, k)| == Count(CcDegrees(t), k)
  {
    if t != [] {
      var init, last := t[..|t| - 1], t[|t| - 1];
      GroupCcComplete(init, k);
      assert CcDegrees(t)[..|t| - 1] == CcDegrees(init);
      assert t == init + [last];
    }
  }

  /** `np.mean` of a non-empty series. */
  function Mean(xs: seq<real>): real
    requires xs != []
  {
    SumReals(xs) / |xs| as real
  }

  lemma {:induction false} SumOfFractions(xs: seq<real>)
    requires forall x :: x in xs ==> 0.0 <= x <= 1.0
    ensures 0.0 <= SumReals(xs) <= |xs| as real
  {
    if xs != [] {
      var init := xs[..|xs| - 1];
      assert forall x :: x in init ==> x in xs;
      assert xs[|xs| - 1] in xs;
      SumOfFractions(init);
    }
  }

  /** The mean of values in [0, 1] lies in [0, 1]. */
  lemma MeanOfFractions(xs: seq<real>)
    requires xs != []
    requires forall x :: x in xs ==> 0.0 <= x <= 1.0
    ensures 0.0 <= Mean(xs) <= 1.0
  {
    SumOfFractions(xs);
    var n := |xs| as real;
    assert Mean(xs) * n == SumReals(xs);
  }

  /** The result of cc_by_degree: the distinct degrees and, for each, the
      mean coefficient of the nodes of that degree. */
  datatype CcProfile = CcProfile(degrees: seq<int>, y: seq<real>)

  function MeansOf(t: seq<CcRow>, ks: seq<int>): (y: seq<real>)
    requires forall k :: k in ks ==> k in CcDegrees(t)
    ensures |y| == |ks| && forall i :: 0 <= i < |ks| ==> y[i] == Mean(GroupCc(t, ks[i]))
  {
    seq(|ks|, i requires 0 <= i < |ks| => Mean(GroupCc(t, ks[i])))
  }

  /** The degrees are the distinct undirected degrees of the nodes, each
      once, in order of first appearance, and y[i] is the mean coefficient
      over the (never empty) group of nodes of degree degrees[i], a value in
      [0, 1]. */
  function CcByDegree(g: DiGraph): (r: CcProfile)
    ensures |r.degrees| == |r.y|
    ensures Distinct(r.degrees)
    ensures forall k :: k in r.degrees <==> exists v :: v in g.nodes && UDegree(ToUndirected(g), v) == k
    ensures forall i :: 0 <= i < |r.y| ==> 0.0 <= r.y[i] <= 1.0
    ensures forall i :: 0 <= i < |r.y| ==>
      var group := GroupCc(CcTable(ToUndirected(g)), r.degrees[i]);
      group != [] && r.y[i] == Mean(group)
  {
    var h := ToUndirected(g);
    var t := CcTable(h);
    var degrees := Unique(CcDegrees(t));
    DegreeColumnIsNodeDegrees(h);
    var y := MeansOf(t, degrees);
    forall i | 0 <= i < |y|
      ensures 0.0 <= y[i] <= 1.0
    {
      GroupCcFractions(h, degrees[i]);
      MeanOfFractions(GroupCc(t, degrees[i]));
    }
    CcProfile(degrees, y)
  }

  lemma DegreeColumnIsNodeDegrees(h: UGraph)
    ensures forall k :: k in CcDegrees(CcTable(h)) <==> exists v :: v in h.nodes && UDegree(h, v) == k
  {
    var t := CcTable(h);
    forall k | k in CcDegrees(t)
      ensures exists v :: v in h.nodes && UDegree(h, v) == k
    {
      var i :| 0 <= i < |t| && CcDegrees(t)[i] == k;
      assert h.nodes[i] in h.nodes;
    }
    forall k | exists v :: v in h.nodes && UDegree(h, v) == k
      ensures k in CcDegrees(t)
    {
      var v :| v in h.nodes && UDegree(h, v) == k;
      var i :| 0 <= i < |h.nodes| && h.nodes[i] == v;
      assert CcDegrees(t)[i] == k;
    }
  }

  lemma GroupCcFractions(h: UGraph, k: int)
    ensures forall x :: x in GroupCc(CcTable(h), k) ==> 0.0 <= x <= 1.0
  {
    var t := CcTable(h);
    forall x | x in GroupCc(t, k)
      ensures 0.0 <= x <= 1.0
    {
      var row :| row in t && row.degree == k && row.cc == x;
      var i :| 0 <= i < |t| && t[i] == row;
    }
  }

  /** The degrees come in the order in which the node list first shows them. */
  lemma DegreesInFirstAppearanceOrder(g: DiGraph)
    ensures var col := CcDegrees(CcTable(ToUndirected(g)));
      var ds := CcByDegree(g).degrees;
      forall i, j :: 0 <= i < j < |ds| ==> FirstIndex(col, ds[i]) < FirstIndex(col, ds[j])
  {
    UniqueFirstAppearanceOrder(CcDegrees(CcTable(ToUndirected(g))));
  }

  /** The undirected neighbours of v are its predecessors and successors
      other than v, pooled: a node joined to v in both directions counts
      once. */
  lemma UndirectedNeighbours(g: DiGraph, v: int)
    requires WellFormed(g)
    ensures var both := (Neighbours(g, In, v) + Neighbours(g, Out, v)) - {v};
      && (forall x :: x in NeighbourSeq(ToUndirected(g), v) <==> x in both)
      && |NeighbourSeq(ToUndirected(g), v)| == |both|
  {
    var h := ToUndirected(g);
    var both := (Neighbours(g, In, v) + Neighbours(g, Out, v)) - {v};
    var ns := NeighbourSeq(h, v);
    forall x
      ensures x in ns <==> x in both
    {
      AdjacentIffEitherDirection(g, x, v);
      NeighbourIff(g, v, x);
    }
    DistinctCard(ns);
    assert (set x | x in ns) == both;
  }

  lemma NeighbourIff(g: DiGraph, v: int, x: int)
    ensures x in Neighbours(g, In, v) <==> (x, v) in g.rating
    ensures x in Neighbours(g, Out, v) <==> (v, x) in g.rating
  {
    if (x, v) in g.rating {
      assert Toward((x, v), In) == v && Away((x, v), In) == x;
    }
    if (v, x) in g.rating {
      assert Toward((v, x), Out) == v && Away((v, x), Out) == x;
    }
  }
}

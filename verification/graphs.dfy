/** The undirected graph that `compute_centralities` and
    `detect_communities` receive (core/graph_analysis.py:85-197), with the
    degree notions they read from networkx.

    Nodes and edges are listed in the order they were added; an edge is the
    set of its endpoints (one element for a self-loop) and may carry a
    `weight` attribute. `G.edges()` reports the edges in another order,
    node by node and at each node in the order its edges were added, which
    `FirstReported` models for the one place that reads it. */
module Graphs {
  import opened Wrappers
  import opened Seqs

  datatype Edge = Edge(ends: set<string>, weight: Option<real>)

  datatype Graph = Graph(nodes: seq<string>, edges: seq<Edge>)

  /** The nodes as a set. */
  function NodeSet(g: Graph): set<string>
  {
    Elems(g.nodes)
  }

  /** What an `nx.Graph` guarantees: distinct nodes, edges with one or two
      endpoints among the nodes, no edge listed twice. */
  ghost predicate WellFormed(g: Graph) {
    && NoDup(g.nodes)
    && (forall i :: 0 <= i < |g.edges| ==> 1 <= |g.edges[i].ends| <= 2 && g.edges[i].ends <= NodeSet(g))
    && (forall i, j :: 0 <= i < j < |g.edges| ==> g.edges[i].ends != g.edges[j].ends)
  }

  /** No edge is a self-loop. */
  ghost predicate Loopless(g: Graph) {
    forall i :: 0 <= i < |g.edges| ==> |g.edges[i].ends| == 2
  }

  /** How often edge `e` meets node `n`: networkx counts a self-loop twice. */
  function Incidence(e: Edge, n: string): nat
  {
    if n !in e.ends then 0 else if |e.ends| == 1 then 2 else 1
  }

  /** `G.degree()[n]`. */
  function Degree(edges: seq<Edge>, n: string): nat
  {
    if |edges| == 0 then 0 else Incidence(edges[0], n) + Degree(edges[1..], n)
  }

  /** `G.degree(weight="weight")[n]`: incident weights, a missing attribute
      read as 1. */
  function WeightedDegree(edges: seq<Edge>, n: string): real
  {
    if |edges| == 0 then 0.0
    else (Incidence(edges[0], n) as real) * edges[0].weight.GetOr(1.0) + WeightedDegree(edges[1..], n)
  }

  /** The earliest-added edge at `n`, if `n` has one. */
  function FirstEdgeAt(edges: seq<Edge>, n: string): (r: Option<Edge>)
    ensures r.Some? ==> r.value in edges && n in r.value.ends
  {
    if |edges| == 0 then None
    else if n in edges[0].ends then Some(edges[0])
    else FirstEdgeAt(edges[1..], n)
  }

  /** `FirstEdgeAt` finds nothing exactly when no edge meets `n`, and what it
      finds is preceded by no edge at `n`. */
  lemma {:induction false} EarliestEdgeAt(edges: seq<Edge>, n: string)
    ensures FirstEdgeAt(edges, n).None? <==> forall i | 0 <= i < |edges| :: n !in edges[i].ends
    ensures FirstEdgeAt(edges, n).Some? ==>
      exists i :: (0 <= i < |edges| && edges[i] == FirstEdgeAt(edges, n).value
                   && forall k | 0 <= k < i :: n !in edges[k].ends)
  {
    if |edges| > 0 && n !in edges[0].ends {
      EarliestEdgeAt(edges[1..], n);
      assert forall i | 1 <= i < |edges| :: edges[i] == edges[1..][i - 1];
      if FirstEdgeAt(edges, n).Some? {
        var j :| 0 <= j < |edges[1..]| && edges[1..][j] == FirstEdgeAt(edges, n).value
                 && forall k | 0 <= k < j :: n !in edges[1..][k].ends;
        assert edges[j + 1] == FirstEdgeAt(edges, n).value;
      }
    }
  }

  /** The first edge `G.edges()` reports: networkx walks the nodes in the
      order they were added and, at each, its edges in the order they were
      added, so the first edge reported is the earliest-added edge at the
      first node that has an edge. */
  function FirstReported(nodes: seq<string>, edges: seq<Edge>): (r: Option<Edge>)
    ensures r.Some? ==> r.value in edges
  {
    if |nodes| == 0 then None
    else match FirstEdgeAt(edges, nodes[0])
      case Some(e) => Some(e)
      case None => FirstReported(nodes[1..], edges)
  }

  /** `FirstReported` finds nothing exactly when no edge meets a node, and
      otherwise it is the earliest edge at the first node that has one. */
  lemma {:induction false} ReportedAtFirstNode(nodes: seq<string>, edges: seq<Edge>)
    ensures FirstReported(nodes, edges).None? <==>
      forall k, i | 0 <= k < |nodes| && 0 <= i < |edges| :: nodes[k] !in edges[i].ends
    ensures FirstReported(nodes, edges).Some? ==>
      exists k :: (0 <= k < |nodes| && FirstEdgeAt(edges, nodes[k]) == FirstReported(nodes, edges)
                   && forall j | 0 <= j < k :: FirstEdgeAt(edges, nodes[j]).None?)
  {
    if |nodes| > 0 {
      EarliestEdgeAt(edges, nodes[0]);
      if FirstEdgeAt(edges, nodes[0]).None? {
        ReportedAtFirstNode(nodes[1..], edges);
        assert forall k | 1 <= k < |nodes| :: nodes[k] == nodes[1..][k - 1];
        if FirstReported(nodes, edges).Some? {
          var j :| 0 <= j < |nodes[1..]| && FirstEdgeAt(edges, nodes[1..][j]) == FirstReported(nodes, edges)
                   && forall m | 0 <= m < j :: FirstEdgeAt(edges, nodes[1..][m]).None?;
          assert FirstEdgeAt(edges, nodes[j + 1]) == FirstReported(nodes, edges);
        }
      }
    }
  }

  /** Lines 101-106: the graph counts as weighted when the first reported
      edge carries a `weight` attribute. */
  predicate HasWeights(g: Graph) {
    var f := FirstReported(g.nodes, g.edges);
    f.Some? && f.value.weight.Some?
  }

  /** A well-formed graph with an edge reports one, and when every edge
      carries a weight the graph counts as weighted. */
  lemma ReportsAnEdge(g: Graph)
    requires WellFormed(g) && |g.edges| > 0
    ensures FirstReported(g.nodes, g.edges).Some?
    ensures (forall i | 0 <= i < |g.edges| :: g.edges[i].weight.Some?) ==> HasWeights(g)
  {
    var v :| v in g.edges[0].ends;
    assert v in NodeSet(g);
    var k :| 0 <= k < |g.nodes| && g.nodes[k] == v;
    ReportedAtFirstNode(g.nodes, g.edges);
  }

  /** The first edge reported need not be the first one added: with node
      `a` added alone, then edges `b`-`c` (weight 5) and `a`-`b`, networkx
      reports `a`-`b` first, so the graph does not count as weighted even
      though its first-added edge has a weight. */
  lemma ReportingOrderExample()
    ensures var g := Graph(["a", "b", "c"], [Edge({"b", "c"}, Some(5.0)), Edge({"a", "b"}, None)]);
      FirstReported(g.nodes, g.edges) == Some(Edge({"a", "b"}, None)) && !HasWeights(g)
      && g.edges[0].weight.Some?
  {
    var g := Graph(["a", "b", "c"], [Edge({"b", "c"}, Some(5.0)), Edge({"a", "b"}, None)]);
    assert "a" !in g.edges[0].ends;
    assert "a" in g.edges[1].ends;
  }

  /** `nx.degree_centrality(G)[n]`: degree over `n - 1`, and 1 for every node
      of a graph with at most one node. */
  function DegreeCentrality(g: Graph, n: string): real
  {
    if |g.nodes| <= 1 then 1.0 else (Degree(g.edges, n) as real) / ((|g.nodes| - 1) as real)
  }

  /** The other endpoints of the edges at `n`. */
  function Neighbours(edges: seq<Edge>, n: string): set<string>
  {
    if |edges| == 0 then {}
    else (if n in edges[0].ends then edges[0].ends - {n} else {}) + Neighbours(edges[1..], n)
  }

  /** A neighbour is the other endpoint of some listed edge. */
  lemma {:induction false} NeighbourEdge(edges: seq<Edge>, n: string, m: string) returns (k: nat)
    requires m in Neighbours(edges, n)
    ensures k < |edges| && n in edges[k].ends && m in edges[k].ends && m != n
  {
    if n in edges[0].ends && m in edges[0].ends - {n} {
      k := 0;
    } else {
      var k' := NeighbourEdge(edges[1..], n, m);
      k := k' + 1;
    }
  }

  /** In a loopless graph without repeated edges, the degree counts distinct
      neighbours. */
  lemma {:induction false} DegreeIsNeighbourCount(edges: seq<Edge>, n: string)
    requires forall i :: 0 <= i < |edges| ==> |edges[i].ends| == 2
    requires forall i, j :: 0 <= i < j < |edges| ==> edges[i].ends != edges[j].ends
    ensures Degree(edges, n) == |Neighbours(edges, n)|
  {
    if |edges| > 0 {
      var rest := edges[1..];
      DegreeIsNeighbourCount(rest, n);
      if n in edges[0].ends {
        var m := PairShape(edges[0].ends, n);
        assert edges[0].ends - {n} == {m};
        assert m !in Neighbours(rest, n) by {
          if m in Neighbours(rest, n) {
            var k := NeighbourEdge(rest, n, m);
            var o := PairShape(rest[k].ends, n);
            assert false;
          }
        }
      }
    }
  }

  /** Every neighbour of a node is another node of the graph. */
  lemma {:induction false} NeighboursAreNodes(edges: seq<Edge>, n: string, nodes: set<string>)
    requires forall i :: 0 <= i < |edges| ==> edges[i].ends <= nodes
    ensures Neighbours(edges, n) <= nodes - {n}
  {
    if |edges| > 0 {
      NeighboursAreNodes(edges[1..], n, nodes);
    }
  }

  /** In a loopless graph a node has at most `n - 1` edges. */
  lemma DegreeBound(g: Graph, n: string)
    requires WellFormed(g) && Loopless(g) && n in g.nodes
    ensures Degree(g.edges, n) <= |g.nodes| - 1
  {
    DegreeIsNeighbourCount(g.edges, n);
    NeighboursAreNodes(g.edges, n, NodeSet(g));
    NoDupCard(g.nodes);
    var others := NodeSet(g) - {n};
    assert |others| == |NodeSet(g)| - 1;
    assert |Neighbours(g.edges, n)| <= |others| by {
      SubsetCard(Neighbours(g.edges, n), others);
    }
  }

  /** Degree centrality lies in [0, 1] in a loopless graph of two or more
      nodes, and is 1 exactly for the nodes joined to every other node. */
  lemma DegreeCentralityRange(g: Graph, n: string)
    requires WellFormed(g) && Loopless(g) && n in g.nodes && |g.nodes| >= 2
    ensures 0.0 <= DegreeCentrality(g, n) <= 1.0
    ensures DegreeCentrality(g, n) == 1.0 <==> Degree(g.edges, n) == |g.nodes| - 1
  {
    DegreeBound(g, n);
    RatioInUnit(Degree(g.edges, n) as real, (|g.nodes| - 1) as real);
  }

  /** Without edges every degree is 0. */
  lemma {:induction false} EdgelessDegree(edges: seq<Edge>, n: string)
    requires |edges| == 0
    ensures Degree(edges, n) == 0 && WeightedDegree(edges, n) == 0.0
  {
  }

  /** An edge has an endpoint, so a graph with edges has nodes. */
  lemma EdgesNeedNodes(g: Graph)
    requires WellFormed(g)
    ensures |g.edges| > 0 ==> |g.nodes| > 0
  {
    if |g.edges| > 0 {
      var v :| v in g.edges[0].ends;
      assert v in NodeSet(g);
    }
  }

  /** Three skills, pairwise joined with weight 1. */
  function Triangle(): Graph
  {
    Graph(["Python", "SQL", "Excel"],
          [Edge({"Python", "SQL"}, Some(1.0)), Edge({"Python", "Excel"}, Some(1.0)), Edge({"SQL", "Excel"}, Some(1.0))])
  }

  /** The triangle is a well-formed loopless graph. */
  lemma TriangleWellFormed()
    ensures WellFormed(Triangle()) && Loopless(Triangle())
    ensures NodeSet(Triangle()) == {"Python", "SQL", "Excel"}
  {
    TriangleNodes();
    TriangleEdges();
    TriangleEdgesDistinct();
  }

  /** The triangle's three nodes are distinct. */
  lemma TriangleNodes()
    ensures NoDup(Triangle().nodes)
    ensures NodeSet(Triangle()) == {"Python", "SQL", "Excel"}
  {
    var ns := Triangle().nodes;
    assert ns[0] == "Python" && ns[1] == "SQL" && ns[2] == "Excel";
  }

  /** Each edge of the triangle joins two of its nodes. */
  lemma TriangleEdges()
    ensures forall i | 0 <= i < |Triangle().edges| ::
      |Triangle().edges[i].ends| == 2 && Triangle().edges[i].ends <= {"Python", "SQL", "Excel"}
  {
    assert |{"Python", "SQL"}| == 2;
    assert |{"Python", "Excel"}| == 2;
    assert |{"SQL", "Excel"}| == 2;
  }

  /** No edge of the triangle is listed twice. */
  lemma TriangleEdgesDistinct()
    ensures forall i, j | 0 <= i < j < |Triangle().edges| :: Triangle().edges[i].ends != Triangle().edges[j].ends
  {
    assert "Excel" !in {"Python", "SQL"};
    assert "SQL" !in {"Python", "Excel"};
  }
}

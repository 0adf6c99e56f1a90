/** The centrality table (core/graph_analysis.py:85-152).

    Betweenness on a graph with edges, closeness and eigenvector centrality
    are networkx algorithms and enter the model as the outcomes of their
    calls (`Attempt`); what the model fixes is how those outcomes are
    combined: the fallback chains, the degree and weighted-degree columns,
    one row per node and the order of the rows. */
module Centrality {
  import opened Wrappers
  import opened Seqs
  import opened Ranking
  import opened Graphs

  /** The outcome of one call into the graph library. */
  datatype Attempt = Raised | Returned(scores: map<string, real>)

  /** The outcomes of the library calls `compute_centralities` makes: the
      first call of each measure (weighted when the graph is) and the
      unweighted retry made after it raised. */
  datatype Library = Library(
    betweenness: Attempt, betweennessRetry: Attempt,
    closeness: Attempt, closenessRetry: Attempt,
    eigenvector: Attempt, eigenvectorRetry: Attempt)

  /** One row of the table. */
  datatype Row = Row(node: string, degree: real, betweenness: real, closeness: real,
                     eigenvector: real, weightedDegree: real)

  /** The exception that escapes when both betweenness calls raise. */
  datatype Escape = BetweennessRaised

  /** `scores.get(n, 0)`. */
  function Get(scores: map<string, real>, n: string): real
  {
    if n in scores then scores[n] else 0.0
  }

  /** Lines 118-124 and 127-133: the first call, else the retry, else a
      zero for every node; the score of `n` read from the result. */
  function Absorbed(first: Attempt, retry: Attempt, n: string): (v: real)
    ensures first.Returned? ==> v == Get(first.scores, n)
    ensures first.Raised? && retry.Returned? ==> v == Get(retry.scores, n)
    ensures first.Raised? && retry.Raised? ==> v == 0.0
  {
    match first
    case Returned(m) => Get(m, n)
    case Raised =>
      match retry
      case Returned(m) => Get(m, n)
      case Raised => 0.0
  }

  /** Lines 109-115: no call on an edgeless graph (every node scores 0);
      otherwise the first call, else the retry, whose exception escapes. */
  function Betweenness(g: Graph, lib: Library): (r: Option<map<string, real>>)
    ensures |g.edges| == 0 ==> r.Some? && forall n :: Get(r.value, n) == 0.0
    ensures |g.edges| > 0 && lib.betweenness.Returned? ==> r == Some(lib.betweenness.scores)
    ensures |g.edges| > 0 && lib.betweenness.Raised? && lib.betweennessRetry.Returned? ==>
      r == Some(lib.betweennessRetry.scores)
    ensures r.None? <==> |g.edges| > 0 && lib.betweenness.Raised? && lib.betweennessRetry.Raised?
  {
    if |g.edges| == 0 then Some(map n | n in g.nodes :: 0.0)
    else if lib.betweenness.Returned? then Some(lib.betweenness.scores)
    else if lib.betweennessRetry.Returned? then Some(lib.betweennessRetry.scores)
    else None
  }

  /** The row of node `n` (lines 142-150). */
  function RowOf(g: Graph, lib: Library, bt: map<string, real>, n: string): Row
  {
    Row(n,
        DegreeCentrality(g, n),
        Get(bt, n),
        Absorbed(lib.closeness, lib.closenessRetry, n),
        Absorbed(lib.eigenvector, lib.eigenvectorRetry, n),
        if HasWeights(g) then WeightedDegree(g.edges, n) else Degree(g.edges, n) as real)
  }

  /** The sort key of line 152. */
  function DegreeKey(r: Row): real { r.degree }

  /** The node column. */
  function NodeOf(r: Row): string { r.node }

  /** What the table promises about the row of a node of `g`: degree
      centrality `deg / (n - 1)` for two or more nodes and 1 for a single
      node; betweenness 0 on an edgeless graph and otherwise the score of the
      first call, else of the retry; the absorbed closeness and eigenvector
      scores; and the weighted degree (the plain degree unless the first
      edge is weighted). */
  ghost predicate RowFits(g: Graph, lib: Library, row: Row) {
    && row.node in g.nodes
    && (|g.nodes| >= 2 ==> row.degree * ((|g.nodes| - 1) as real) == Degree(g.edges, row.node) as real)
    && (|g.nodes| == 1 ==> row.degree == 1.0)
    && (|g.edges| == 0 ==> row.betweenness == 0.0)
    && (|g.edges| > 0 && lib.betweenness.Returned? ==>
          row.betweenness == Get(lib.betweenness.scores, row.node))
    && (|g.edges| > 0 && lib.betweenness.Raised? && lib.betweennessRetry.Returned? ==>
          row.betweenness == Get(lib.betweennessRetry.scores, row.node))
    && row.closeness == Absorbed(lib.closeness, lib.closenessRetry, row.node)
    && row.eigenvector == Absorbed(lib.eigenvector, lib.eigenvectorRetry, row.node)
    && row.weightedDegree == (if HasWeights(g) then WeightedDegree(g.edges, row.node) else Degree(g.edges, row.node) as real)
  }

  /** The row built for a node keeps the promises of `RowFits`. */
  lemma RowOfFits(g: Graph, lib: Library, bt: map<string, real>, n: string)
    requires n in g.nodes
    requires Betweenness(g, lib) == Some(bt)
    ensures RowOf(g, lib, bt, n).node == n
    ensures RowFits(g, lib, RowOf(g, lib, bt, n))
  {
    if |g.nodes| >= 2 {
      var m := (|g.nodes| - 1) as real;
      var d := Degree(g.edges, n) as real;
      assert (d / m) * m == d;
    }
  }

  /** `compute_centralities`: an empty table for an empty graph (its columns
      hold no numbers, which `Bridge.ObjectColumns` records); the escaping
      exception when both betweenness calls raise; otherwise one row per node,
      in non-increasing degree order, each keeping the promises of
      `RowFits`. */
  function ComputeCentralities(g: Graph, lib: Library): (r: Result<seq<Row>, Escape>)
    requires WellFormed(g)
    ensures |g.nodes| == 0 ==> r == Success([])
    ensures r.Failure? <==> |g.nodes| > 0 && |g.edges| > 0 && lib.betweenness.Raised? && lib.betweennessRetry.Raised?
    ensures r.Success? ==> |r.value| == |g.nodes| && multiset(Project(r.value, NodeOf)) == multiset(g.nodes)
    ensures r.Success? ==> NonIncreasing(r.value, DegreeKey)
    ensures r.Success? ==> forall i :: 0 <= i < |r.value| ==> RowFits(g, lib, r.value[i])
  {
    if |g.nodes| == 0 then Success([])
    else
      match Betweenness(g, lib)
      case None => Failure(BetweennessRaised)
      case Some(bt) =>
        var f := (n: string) => RowOf(g, lib, bt, n);
        var rows := Project(g.nodes, f);
        var sorted := SortDesc(rows, DegreeKey);
        TableNodes(g, lib, bt, f, rows, sorted);
        RowsFit(g, lib, bt, rows);
        PermutedRowsFit(g, lib, rows, sorted);
        Success(sorted)
  }

  /** The sorted table names every node once. */
  lemma TableNodes(g: Graph, lib: Library, bt: map<string, real>, f: string -> Row, rows: seq<Row>, sorted: seq<Row>)
    requires forall n :: f(n) == RowOf(g, lib, bt, n)
    requires rows == Project(g.nodes, f)
    requires sorted == SortDesc(rows, DegreeKey)
    ensures multiset(Project(sorted, NodeOf)) == multiset(g.nodes)
    ensures forall k :: 0 <= k < |rows| ==> rows[k] == RowOf(g, lib, bt, g.nodes[k])
  {
    ProjectAt(g.nodes, f);
    RowNames(g, lib, bt, rows);
    SortDescProject(rows, DegreeKey, NodeOf);
  }

  /** Every row built node by node fits. */
  lemma RowsFit(g: Graph, lib: Library, bt: map<string, real>, rows: seq<Row>)
    requires |rows| == |g.nodes|
    requires Betweenness(g, lib) == Some(bt)
    requires forall k :: 0 <= k < |rows| ==> rows[k] == RowOf(g, lib, bt, g.nodes[k])
    ensures forall k :: 0 <= k < |rows| ==> RowFits(g, lib, rows[k])
  {
    forall k | 0 <= k < |rows| ensures RowFits(g, lib, rows[k]) {
      RowOfFits(g, lib, bt, g.nodes[k]);
    }
  }

  /** A permutation of fitting rows fits. */
  lemma PermutedRowsFit(g: Graph, lib: Library, rows: seq<Row>, sorted: seq<Row>)
    requires forall k :: 0 <= k < |rows| ==> RowFits(g, lib, rows[k])
    requires multiset(sorted) == multiset(rows)
    ensures forall i :: 0 <= i < |sorted| ==> RowFits(g, lib, sorted[i])
  {
    forall i | 0 <= i < |sorted| ensures RowFits(g, lib, sorted[i]) {
      assert sorted[i] in multiset(rows);
      var k :| 0 <= k < |rows| && rows[k] == sorted[i];
    }
  }

  /** The rows built node by node name the nodes in order. */
  lemma RowNames(g: Graph, lib: Library, bt: map<string, real>, rows: seq<Row>)
    requires |rows| == |g.nodes|
    requires forall k :: 0 <= k < |rows| ==> rows[k] == RowOf(g, lib, bt, g.nodes[k])
    ensures Project(rows, NodeOf) == g.nodes
  {
    ProjectAt(rows, NodeOf);
  }
}

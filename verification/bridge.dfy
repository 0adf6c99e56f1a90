/** Bridge-skill selection (core/graph_analysis.py:222-238): the rows of
    the centrality table with the largest betweenness, projected to node,
    betweenness and degree. */
module Bridge {
  import opened Wrappers
  import opened Ranking
  import opened Centrality
  import opened Graphs

  /** The table handed in: one without a `betweenness` column; the empty
      table of line 96, whose columns were created without data and so hold
      Python objects rather than numbers; or rows with numeric columns. */
  datatype Frame = NoBetweenness | ObjectColumns | Table(rows: seq<Row>)

  /** `nlargest` refuses a column that does not hold numbers. */
  datatype BridgeError = TypeError

  /** A row of the result, `[["node", "betweenness", "degree"]]`. */
  datatype BridgeRow = BridgeRow(node: string, betweenness: real, degree: real)

  /** The column projection of line 238. */
  function ToBridge(r: Row): BridgeRow
  {
    BridgeRow(r.node, r.betweenness, r.degree)
  }

  /** The sort key of `nlargest`. */
  function BetweennessKey(r: Row): real { r.betweenness }

  /** How many rows `nlargest(n)` keeps: none for `n <= 0`, at most all. */
  function Kept(n: int, available: nat): (k: nat)
    ensures k <= available
    ensures n <= 0 ==> k == 0
    ensures 0 <= n <= available ==> k == n
    ensures n >= available ==> k == available
  {
    if n <= 0 then 0 else if n < available then n else available
  }

  /** `get_bridge_skills`: empty without a betweenness column; a `TypeError`
      from `nlargest` on the object-typed empty table; otherwise the
      `min(top_n, rows)` rows of largest betweenness in non-increasing order
      (every row left out has betweenness at most that of the last row
      kept), projected to node, betweenness and degree. */
  function BridgeSkills(t: Frame, topN: int): (r: Result<seq<BridgeRow>, BridgeError>)
    ensures r.Failure? <==> t.ObjectColumns?
    ensures t.NoBetweenness? ==> r == Success([])
    ensures t.Table? ==> r.Success? && |r.value| == Kept(topN, |t.rows|)
    ensures r.Success? ==> forall i, j :: 0 <= i < j < |r.value| ==> r.value[i].betweenness >= r.value[j].betweenness
    ensures t.Table? ==> multiset(r.value) <= multiset(Project(t.rows, ToBridge))
    ensures t.Table? && 0 < |r.value| < |t.rows| ==>
      forall x | x in t.rows && x.betweenness > r.value[|r.value| - 1].betweenness :: ToBridge(x) in r.value
  {
    match t
    case NoBetweenness => Success([])
    case ObjectColumns => Failure(TypeError)
    case Table(rows) =>
      var sorted := SortDesc(rows, BetweennessKey);
      var k := Kept(topN, |rows|);
      var r := Project(sorted[..k], ToBridge);
      SelectionFacts(rows, sorted, k, r);
      Success(r)
  }

  /** What taking a prefix of the sorted rows keeps. */
  lemma SelectionFacts(rows: seq<Row>, sorted: seq<Row>, k: nat, r: seq<BridgeRow>)
    requires sorted == SortDesc(rows, BetweennessKey)
    requires k <= |rows|
    requires r == Project(sorted[..k], ToBridge)
    ensures |r| == k
    ensures forall i, j :: 0 <= i < j < |r| ==> r[i].betweenness >= r[j].betweenness
    ensures multiset(r) <= multiset(Project(rows, ToBridge))
    ensures 0 < k < |rows| ==>
      forall x | x in rows && x.betweenness > r[k - 1].betweenness :: ToBridge(x) in r
  {
    PrefixOrdered(sorted, k);
    PrefixSubMultiset(rows, sorted, k);
    if 0 < k < |rows| {
      PrefixTop(rows, sorted, k);
    }
  }

  /** The projected prefix keeps the order of the sorted rows. */
  lemma PrefixOrdered(sorted: seq<Row>, k: nat)
    requires NonIncreasing(sorted, BetweennessKey)
    requires k <= |sorted|
    ensures |Project(sorted[..k], ToBridge)| == k
    ensures forall i, j :: 0 <= i < j < k ==>
      Project(sorted[..k], ToBridge)[i].betweenness >= Project(sorted[..k], ToBridge)[j].betweenness
  {
    var r := Project(sorted[..k], ToBridge);
    ProjectAt(sorted[..k], ToBridge);
    forall i, j | 0 <= i < j < k ensures r[i].betweenness >= r[j].betweenness {
      assert r[i] == ToBridge(sorted[i]) && r[j] == ToBridge(sorted[j]);
    }
  }

  /** The projected prefix is part of the projected input. */
  lemma PrefixSubMultiset(rows: seq<Row>, sorted: seq<Row>, k: nat)
    requires sorted == SortDesc(rows, BetweennessKey)
    requires k <= |rows|
    ensures multiset(Project(sorted[..k], ToBridge)) <= multiset(Project(rows, ToBridge))
  {
    SortDescProject(rows, BetweennessKey, ToBridge);
    ProjectPrefix(sorted, k, ToBridge);
  }

  /** A row whose betweenness beats the last kept one is kept. */
  lemma PrefixTop(rows: seq<Row>, sorted: seq<Row>, k: nat)
    requires sorted == SortDesc(rows, BetweennessKey)
    requires 0 < k < |rows|
    ensures forall x | x in rows && x.betweenness > sorted[k - 1].betweenness ::
      ToBridge(x) in Project(sorted[..k], ToBridge)
  {
    PrefixHoldsTop(rows, sorted, BetweennessKey, k, ToBridge);
  }

  /** The table `compute_centralities` hands on: for a graph without nodes
      the object-typed empty table of line 96, otherwise its rows. */
  function CentralityFrame(g: Graph, lib: Library): Option<Frame>
    requires WellFormed(g)
  {
    if |g.nodes| == 0 then Some(ObjectColumns)
    else
      match ComputeCentralities(g, lib)
      case Failure(_) => None
      case Success(rows) => Some(Table(rows))
  }

  /** `get_bridge_skills(compute_centralities(graph))`: a graph without nodes
      makes `nlargest` raise; otherwise, unless the betweenness exception
      escapes first, `min(top_n, nodes)` of the graph's nodes come back, in
      non-increasing betweenness. */
  lemma BridgeOfCentralities(g: Graph, lib: Library, topN: int)
    requires WellFormed(g)
    ensures |g.nodes| == 0 ==>
      CentralityFrame(g, lib) == Some(ObjectColumns) && BridgeSkills(ObjectColumns, topN) == Failure(TypeError)
    ensures CentralityFrame(g, lib).None? <==> ComputeCentralities(g, lib).Failure?
    ensures |g.nodes| > 0 && CentralityFrame(g, lib).Some? ==>
      var r := BridgeSkills(CentralityFrame(g, lib).value, topN);
      && r.Success? && |r.value| == Kept(topN, |g.nodes|)
      && forall i | 0 <= i < |r.value| :: r.value[i].node in g.nodes
  {
    if |g.nodes| > 0 && ComputeCentralities(g, lib).Success? {
      var rows := ComputeCentralities(g, lib).value;
      var r := BridgeSkills(Table(rows), topN);
      forall i | 0 <= i < |r.value| ensures r.value[i].node in g.nodes {
        BridgeNodeOf(g, rows, r.value, i);
      }
    }
  }

  /** A selected row names a node of the table. */
  lemma BridgeNodeOf(g: Graph, rows: seq<Row>, picked: seq<BridgeRow>, i: nat)
    requires multiset(Project(rows, NodeOf)) == multiset(g.nodes)
    requires multiset(picked) <= multiset(Project(rows, ToBridge))
    requires i < |picked|
    ensures picked[i].node in g.nodes
  {
    assert picked[i] in multiset(Project(rows, ToBridge));
    ProjectAt(rows, ToBridge);
    ProjectAt(rows, NodeOf);
    var k :| 0 <= k < |rows| && Project(rows, ToBridge)[k] == picked[i];
    assert Project(rows, NodeOf)[k] in multiset(g.nodes);
  }
}

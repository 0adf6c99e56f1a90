/** Community assignment (core/graph_analysis.py:155-197).

    The modularity algorithms (python-louvain's `best_partition`, networkx's
    `greedy_modularity_communities`) enter the model as the outcome of the
    call (`Detection`). The fallbacks and the conversion of a list of
    communities into ids are modelled concretely.

    The calls at lines 174, 178 and 187 evaluate `graph.is_weighted()`, and
    `nx.Graph` has no such method: the attribute lookup raises before the
    library is entered, and the `except` at line 193 takes over on every
    graph with edges. `DetectCommunitiesAsWritten` models that;
    `DetectCommunities` models the evidently intended behaviour (the
    library's partition is used). */
module Communities {
  import opened Wrappers
  import opened Seqs
  import opened Graphs

  /** The algorithm that ends up running. */
  datatype Algorithm = Louvain | GreedyModularity

  /** Lines 170-186: "louvain" runs python-louvain when it can be imported
      and greedy modularity otherwise; any other name runs greedy
      modularity. */
  function ChooseAlgorithm(name: string, louvainInstalled: bool): (a: Algorithm)
    ensures a == Louvain <==> name == "louvain" && louvainInstalled
  {
    if name == "louvain" && louvainInstalled then Louvain else GreedyModularity
  }

  /** The outcome of the library call: an exception, python-louvain's
      node-to-label map, or networkx's list of communities. */
  datatype Detection = Raised | Labels(labels: map<string, int>) | Groups(groups: seq<set<string>>)

  /** The shape of outcome each algorithm can produce: `best_partition`
      returns a map, `greedy_modularity_communities` a list of sets. */
  predicate Produces(a: Algorithm, d: Detection) {
    match d
    case Raised => true
    case Labels(_) => a == Louvain
    case Groups(_) => a == GreedyModularity
  }

  /** The library's answer is a partition of the graph's nodes: a label for
      every node, or pairwise disjoint communities covering the nodes. */
  ghost predicate Partitions(g: Graph, d: Detection) {
    match d
    case Raised => true
    case Labels(labels) => labels.Keys == NodeSet(g)
    case Groups(groups) => Disjoint(groups) && UnionOf(groups) == NodeSet(g)
  }

  /** Every node of any community. */
  function UnionOf(groups: seq<set<string>>): set<string>
  {
    if |groups| == 0 then {} else UnionOf(groups[..|groups| - 1]) + groups[|groups| - 1]
  }

  /** Pairwise disjoint communities. */
  ghost predicate Disjoint(groups: seq<set<string>>) {
    forall i, j :: 0 <= i < j < |groups| ==> groups[i] !! groups[j]
  }

  /** Lines 180-183 (and 189-192): each node of the `i`-th community gets
      id `i`; a node listed in several communities keeps the last index. */
  function GroupIds(groups: seq<set<string>>): (m: map<string, nat>)
    ensures m.Keys == UnionOf(groups)
    ensures forall v | v in m :: m[v] < |groups| && v in groups[m[v]]
    ensures forall v, j | v in m && m[v] < j < |groups| :: v !in groups[j]
  {
    if |groups| == 0 then map[]
    else
      var n := |groups| - 1;
      var m := GroupIds(groups[..n]);
      var r := m + map v | v in groups[n] :: n;
      assert groups == groups[..n] + [groups[n]];
      LaterGroupsMiss(groups[..n], groups[n], m, r);
      r
  }

  /** The last community overrides earlier ids, so no node meets a community
      after the one its id names. */
  lemma LaterGroupsMiss(init: seq<set<string>>, last: set<string>, m: map<string, nat>, r: map<string, nat>)
    requires forall v, j | v in m && m[v] < j < |init| :: v !in init[j]
    requires r == m + map v | v in last :: |init|
    ensures forall v, j | v in r && r[v] < j < |init| + 1 :: v !in (init + [last])[j]
  {
    forall v, j | v in r && r[v] < j < |init| + 1 ensures v !in (init + [last])[j] {
      if v !in last && j < |init| {
        assert r[v] == m[v];
      }
    }
  }

  /** With disjoint communities the ids are exactly the positions: a member
      of the `i`-th community gets id `i` (and, by `GroupIds`, only members
      of some community get an id). */
  lemma GroupIdsOfDisjoint(groups: seq<set<string>>, i: nat, v: string)
    requires Disjoint(groups)
    requires i < |groups| && v in groups[i]
    ensures v in GroupIds(groups) && GroupIds(groups)[v] == i
  {
    var m := GroupIds(groups);
    UnionMember(groups, i, v);
    var k := m[v];
    assert v in groups[k] && v in groups[i];
    assert !(groups[k] !! groups[i]);
  }

  /** A member of one community belongs to the union. */
  lemma {:induction false} UnionMember(groups: seq<set<string>>, i: nat, v: string)
    requires i < |groups| && v in groups[i]
    ensures v in UnionOf(groups)
  {
    var n := |groups| - 1;
    if i < n {
      assert groups[..n][i] == groups[i];
      UnionMember(groups[..n], i, v);
    }
  }

  /** Line 195, `{node: i for i, node in enumerate(nodes)}`: each node gets
      its position. */
  function Singletons(nodes: seq<string>): (m: map<string, nat>)
    requires NoDup(nodes)
    ensures m.Keys == Elems(nodes)
    ensures forall i | 0 <= i < |nodes| :: m[nodes[i]] == i
  {
    if |nodes| == 0 then map[]
    else
      var n := |nodes| - 1;
      Singletons(nodes[..n])[nodes[n] := n]
  }

  /** Line 167: every node in the default community 0. */
  function AllZero(nodes: seq<string>): (m: map<string, int>)
    ensures m.Keys == Elems(nodes)
    ensures forall v | v in m :: m[v] == 0
  {
    map v | v in nodes :: 0
  }

  /** `detect_communities` as written: the call into the library is never
      reached, so a graph with edges always gets singleton communities. */
  function DetectCommunitiesAsWritten(g: Graph): (m: map<string, int>)
    requires WellFormed(g)
    ensures m.Keys == NodeSet(g)
    ensures |g.edges| == 0 ==> forall v | v in m :: m[v] == 0
    ensures |g.edges| > 0 ==> forall i | 0 <= i < |g.nodes| :: m[g.nodes[i]] == i
  {
    EdgesNeedNodes(g);
    if |g.nodes| == 0 || |g.edges| == 0 then AllZero(g.nodes)
    else Singletons(g.nodes)
  }

  /** `detect_communities` as intended, for the algorithm that `algorithm`
      and the availability of python-louvain select: an empty or edgeless
      graph puts every node in community 0; otherwise python-louvain's map
      is used as it is, greedy modularity's list of communities is numbered
      by position, and an exception gives every node its own community
      `0..n-1`. */
  function DetectCommunities(g: Graph, algorithm: string, louvainInstalled: bool, d: Detection): (m: map<string, int>)
    requires WellFormed(g)
    requires Produces(ChooseAlgorithm(algorithm, louvainInstalled), d)
    ensures |g.edges| == 0 ==> m.Keys == NodeSet(g) && forall v | v in m :: m[v] == 0
    ensures |g.edges| > 0 && d.Raised? ==>
      (m.Keys == NodeSet(g) && forall i | 0 <= i < |g.nodes| :: m[g.nodes[i]] == i)
    ensures |g.edges| > 0 && d.Labels? ==> algorithm == "louvain" && louvainInstalled && m == d.labels
    ensures |g.edges| > 0 && d.Groups? ==>
      (m.Keys == UnionOf(d.groups) && forall v | v in m :: 0 <= m[v] < |d.groups| && v in d.groups[m[v]])
  {
    EdgesNeedNodes(g);
    if |g.nodes| == 0 || |g.edges| == 0 then AllZero(g.nodes)
    else
      match d
      case Raised => Singletons(g.nodes)
      case Labels(labels) => labels
      case Groups(groups) => GroupIds(groups)
  }

  /** When the library answers with a partition of the nodes, every node gets
      a community and nothing else does. */
  lemma DetectPartition(g: Graph, algorithm: string, louvainInstalled: bool, d: Detection)
    requires WellFormed(g)
    requires Produces(ChooseAlgorithm(algorithm, louvainInstalled), d)
    requires Partitions(g, d)
    ensures DetectCommunities(g, algorithm, louvainInstalled, d).Keys == NodeSet(g)
  {
    var m := DetectCommunities(g, algorithm, louvainInstalled, d);
    if |g.edges| > 0 && d.Groups? {
      assert m.Keys == UnionOf(d.groups);
    }
  }

  /** With a list of pairwise disjoint communities, the members of the
      `i`-th one get id `i`. */
  lemma DetectGroupIds(g: Graph, algorithm: string, louvainInstalled: bool, groups: seq<set<string>>, i: nat, v: string)
    requires WellFormed(g) && |g.edges| > 0
    requires ChooseAlgorithm(algorithm, louvainInstalled) == GreedyModularity
    requires Disjoint(groups)
    requires i < |groups| && v in groups[i]
    ensures v in DetectCommunities(g, algorithm, louvainInstalled, Groups(groups))
    ensures DetectCommunities(g, algorithm, louvainInstalled, Groups(groups))[v] == i
  {
    EdgesNeedNodes(g);
    assert DetectCommunities(g, algorithm, louvainInstalled, Groups(groups)) == GroupIds(groups);
    GroupIdsOfDisjoint(groups, i, v);
  }

  /** The singleton fallback gives distinct nodes distinct ids. */
  lemma SingletonsInjective(nodes: seq<string>)
    requires NoDup(nodes)
    ensures forall u, v | u in Singletons(nodes) && v in Singletons(nodes) && u != v ::
      Singletons(nodes)[u] != Singletons(nodes)[v]
  {
    var m := Singletons(nodes);
    forall u, v | u in m && v in m && u != v ensures m[u] != m[v] {
      var i :| 0 <= i < |nodes| && nodes[i] == u;
      var j :| 0 <= j < |nodes| && nodes[j] == v;
    }
  }

  /** The triangle of three skills: as written it is split into three
      singleton communities, even when the library would report a single
      community (`TriangleOneCommunity`). */
  lemma AttributeErrorFinding()
    ensures WellFormed(Triangle()) && DetectCommunitiesAsWritten(Triangle()) == map["Python" := 0, "SQL" := 1, "Excel" := 2]
  {
    var g := Triangle();
    TriangleWellFormed();
    var w := DetectCommunitiesAsWritten(g);
    assert w == Singletons(g.nodes);
    assert g.nodes[0] == "Python" && g.nodes[1] == "SQL" && g.nodes[2] == "Excel";
    assert w.Keys == {"Python", "SQL", "Excel"};
  }

  /** The triangle reported as one community is one community. */
  lemma TriangleOneCommunity()
    ensures WellFormed(Triangle())
      && DetectCommunities(Triangle(), "greedy_modularity", false, Groups([{"Python", "SQL", "Excel"}]))
         == map["Python" := 0, "SQL" := 0, "Excel" := 0]
  {
    var g := Triangle();
    TriangleWellFormed();
    var groups := [{"Python", "SQL", "Excel"}];
    assert groups[..0] == [];
    assert UnionOf(groups) == {"Python", "SQL", "Excel"};
    var m := DetectCommunities(g, "greedy_modularity", false, Groups(groups));
    assert m == GroupIds(groups);
    assert m.Keys == {"Python", "SQL", "Excel"};
  }
}

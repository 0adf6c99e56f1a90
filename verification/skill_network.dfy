/** The `nx.Graph` that `build_skill_cooccurrence_graph` returns
    (core/graph_analysis.py:78-82): one weighted edge per counter entry,
    added in the counter's iteration order, each pair with its smaller
    skill first, so nodes appear in order of first mention. */
module SkillNetwork {
  import opened Wrappers
  import opened Seqs
  import opened Bipartite
  import opened Cooccurrence
  import opened Graphs

  /** Python's `<` on strings: code-point lexicographic order. */
  predicate StrLess(a: string, b: string)
    decreases |a|
  {
    if |a| == 0 then |b| > 0
    else if |b| == 0 then false
    else if a[0] != b[0] then a[0] < b[0]
    else StrLess(a[1..], b[1..])
  }

  /** A string is never below itself. */
  lemma {:induction false} StrLessIrreflexive(a: string)
    ensures !StrLess(a, a)
    decreases |a|
  {
    if |a| > 0 {
      StrLessIrreflexive(a[1..]);
    }
  }

  /** The endpoints of a sorted pair. */
  function PairSet(p: (string, string)): set<string> { {p.0, p.1} }

  /** `order` lists each key of the counter once, as the sorted pair line 75
      built (`tuple(sorted([skill1, skill2]))`). The order itself is the
      counter's insertion order, which depends on string hashing. */
  ghost predicate Enumerates(c: Counter, order: seq<(string, string)>) {
    && (forall i | 0 <= i < |order| :: StrLess(order[i].0, order[i].1) && PairSet(order[i]) in c)
    && (forall i, j | 0 <= i < j < |order| :: PairSet(order[i]) != PairSet(order[j]))
    && (forall e | e in c :: exists i :: 0 <= i < |order| && PairSet(order[i]) == e)
  }

  /** Of two different strings, one is below the other. */
  lemma {:induction false} StrLessTotal(a: string, b: string)
    requires a != b
    ensures StrLess(a, b) || StrLess(b, a)
    decreases |a|
  {
    if |a| > 0 && |b| > 0 && a[0] == b[0] {
      assert a == [a[0]] + a[1..] && b == [b[0]] + b[1..];
      StrLessTotal(a[1..], b[1..]);
    }
  }

  /** The pair of `e`'s two skills, smaller first. */
  lemma SortedPair(e: set<string>) returns (p: (string, string))
    requires |e| == 2
    ensures StrLess(p.0, p.1) && PairSet(p) == e
  {
    var a :| a in e;
    var b := PairShape(e, a);
    StrLessTotal(a, b);
    p := if StrLess(a, b) then (a, b) else (b, a);
  }

  /** Every counter keyed by two-skill sets has an iteration order: each key
      once, as its sorted pair. */
  lemma {:induction false} OrderExists(c: Counter) returns (order: seq<(string, string)>)
    requires forall e | e in c :: |e| == 2
    ensures Enumerates(c, order)
    decreases |c.Keys|
  {
    if |c| == 0 {
      order := [];
    } else {
      var e :| e in c;
      var rest := map k | k in c && k != e :: c[k];
      assert rest.Keys == c.Keys - {e};
      var front := OrderExists(rest);
      var p := SortedPair(e);
      order := front + [p];
      EnumeratesSnoc(c, e, rest, front, p, order);
    }
  }

  /** Listing one more key after an order of the other keys lists them all. */
  lemma EnumeratesSnoc(c: Counter, e: set<string>, rest: Counter, front: seq<(string, string)>,
                       p: (string, string), order: seq<(string, string)>)
    requires e in c && rest.Keys == c.Keys - {e}
    requires Enumerates(rest, front)
    requires StrLess(p.0, p.1) && PairSet(p) == e
    requires order == front + [p]
    ensures Enumerates(c, order)
  {
    var n := |front|;
    forall i | 0 <= i < |order| ensures StrLess(order[i].0, order[i].1) && PairSet(order[i]) in c {
      if i < n { assert order[i] == front[i]; }
    }
    forall i, j | 0 <= i < j < |order| ensures PairSet(order[i]) != PairSet(order[j]) {
      assert order[i] == front[i];
      if j < n { assert order[j] == front[j]; }
      else { assert PairSet(order[i]) in rest; }
    }
    forall e' | e' in c ensures exists i :: 0 <= i < |order| && PairSet(order[i]) == e' {
      if e' == e {
        assert order[n] == p;
      } else {
        assert e' in rest;
        var i :| 0 <= i < n && PairSet(front[i]) == e';
        assert order[i] == front[i];
      }
    }
  }

  /** The counter `build_skill_cooccurrence_graph` builds always has an
      iteration order, so `CooccurrenceGraph` applies to every list of
      postings. */
  lemma BuiltOrderExists(rows: seq<JobRow>) returns (order: seq<(string, string)>)
    ensures Enumerates(BuildCooccurrence(rows).weight, order)
  {
    order := OrderExists(BuildCooccurrence(rows).weight);
  }

  /** The endpoints in the order `add_edge` meets them. */
  function Flatten(order: seq<(string, string)>): (xs: seq<string>)
    ensures |xs| == 2 * |order|
  {
    if |order| == 0 then []
    else [order[0].0, order[0].1] + Flatten(order[1..])
  }

  /** The `i`-th pair sits at positions `2i` and `2i + 1`. */
  lemma {:induction false} FlattenAt(order: seq<(string, string)>, i: nat)
    requires i < |order|
    ensures Flatten(order)[2 * i] == order[i].0 && Flatten(order)[2 * i + 1] == order[i].1
  {
    if i > 0 {
      FlattenAt(order[1..], i - 1);
    }
  }

  /** Both skills of a listed pair are flattened. */
  lemma PairFlattened(order: seq<(string, string)>, i: nat)
    requires i < |order|
    ensures PairSet(order[i]) <= Elems(Flatten(order))
  {
    var xs := Flatten(order);
    FlattenAt(order, i);
    assert xs[2 * i] in Elems(xs);
    assert xs[2 * i + 1] in Elems(xs);
  }

  /** Both skills of every listed pair are flattened. */
  lemma AllPairsFlattened(order: seq<(string, string)>)
    ensures forall i | 0 <= i < |order| :: PairSet(order[i]) <= Elems(Flatten(order))
  {
    forall i | 0 <= i < |order| ensures PairSet(order[i]) <= Elems(Flatten(order)) {
      PairFlattened(order, i);
    }
  }

  /** Each flattened skill comes from a listed pair. */
  lemma FlattenSource(order: seq<(string, string)>, s: string) returns (i: nat)
    requires s in Elems(Flatten(order))
    ensures i < |order| && s in PairSet(order[i])
  {
    var xs := Flatten(order);
    var k :| 0 <= k < |xs| && xs[k] == s;
    i := k / 2;
    FlattenAt(order, i);
    if k % 2 == 0 {
      assert k == 2 * i;
    } else {
      assert k == 2 * i + 1;
    }
  }

  /** Line 80: one edge per listed pair, weighted by its count. */
  function EdgesOf(c: Counter, order: seq<(string, string)>): (es: seq<Edge>)
    requires forall i | 0 <= i < |order| :: PairSet(order[i]) in c
    ensures |es| == |order|
    ensures forall i | 0 <= i < |order| ::
      es[i].ends == PairSet(order[i]) && es[i].weight == Some(c[PairSet(order[i])] as real)
  {
    if |order| == 0 then []
    else
      assert forall i | 1 <= i < |order| :: order[1..][i - 1] == order[i];
      [Edge(PairSet(order[0]), Some(c[PairSet(order[0])] as real))] + EdgesOf(c, order[1..])
  }

  /** What the co-occurrence builder guarantees of its result: every key is
      a pair seen at least once, and the nodes are the keys' endpoints. */
  ghost predicate Consistent(sg: SkillGraph) {
    && (forall e | e in sg.weight :: |e| == 2 && sg.weight[e] >= 1)
    && (forall s :: s in sg.nodes <==> exists e :: e in sg.weight && s in e)
  }

  /** The builder's result is consistent. */
  lemma BuiltConsistent(rows: seq<JobRow>)
    ensures Consistent(BuildCooccurrence(rows))
  {
  }

  /** Lines 78-80 on a counter: a well-formed graph without self-loops whose
      edges are the counter's pairs carrying their counts; for a consistent
      counter its nodes are the skills of the pairs, and it never has
      exactly one node. */
  function ToGraph(sg: SkillGraph, order: seq<(string, string)>): (g: Graph)
    requires Enumerates(sg.weight, order)
    ensures WellFormed(g) && Loopless(g)
    ensures forall i | 0 <= i < |g.edges| ::
      g.edges[i].ends in sg.weight && g.edges[i].weight == Some(sg.weight[g.edges[i].ends] as real)
    ensures forall e | e in sg.weight :: exists i :: 0 <= i < |g.edges| && g.edges[i].ends == e
    ensures Consistent(sg) ==> NodeSet(g) == sg.nodes && |g.nodes| != 1
  {
    var g := Graph(Distinct(Flatten(order)), EdgesOf(sg.weight, order));
    ToGraphFacts(sg, order, g);
    g
  }

  /** The contract of `ToGraph`, for the graph it builds. */
  lemma ToGraphFacts(sg: SkillGraph, order: seq<(string, string)>, g: Graph)
    requires Enumerates(sg.weight, order)
    requires g == Graph(Distinct(Flatten(order)), EdgesOf(sg.weight, order))
    ensures WellFormed(g) && Loopless(g)
    ensures forall i | 0 <= i < |g.edges| ::
      g.edges[i].ends in sg.weight && g.edges[i].weight == Some(sg.weight[g.edges[i].ends] as real)
    ensures forall e | e in sg.weight :: exists i :: 0 <= i < |g.edges| && g.edges[i].ends == e
    ensures Consistent(sg) ==> NodeSet(g) == sg.nodes && |g.nodes| != 1
  {
    Construction(sg, order, g);
    GraphShape(sg, order, g);
    NotOneNode(sg, order, g);
    NodesAreEndpoints(sg, order, g);
  }

  /** The facts about the constructed node and edge lists that the
      well-formedness proof needs. */
  lemma Construction(sg: SkillGraph, order: seq<(string, string)>, g: Graph)
    requires forall i | 0 <= i < |order| :: PairSet(order[i]) in sg.weight
    requires g == Graph(Distinct(Flatten(order)), EdgesOf(sg.weight, order))
    ensures NoDup(g.nodes) && NodeSet(g) == Elems(Flatten(order))
    ensures |g.edges| == |order|
    ensures forall i | 0 <= i < |order| :: g.edges[i].ends == PairSet(order[i])
  {
  }

  /** Why the graph is well formed. */
  lemma GraphShape(sg: SkillGraph, order: seq<(string, string)>, g: Graph)
    requires Enumerates(sg.weight, order)
    requires NoDup(g.nodes) && NodeSet(g) == Elems(Flatten(order))
    requires |g.edges| == |order|
    requires forall i | 0 <= i < |order| :: g.edges[i].ends == PairSet(order[i])
    ensures WellFormed(g) && Loopless(g)
    ensures forall e | e in sg.weight :: exists i :: 0 <= i < |g.edges| && g.edges[i].ends == e
  {
    PairsAreEdges(order);
    EdgesInNodes(order, g);
    EdgesCover(sg, order, g);
  }

  /** Both endpoints of every edge are nodes. */
  lemma EdgesInNodes(order: seq<(string, string)>, g: Graph)
    requires NodeSet(g) == Elems(Flatten(order))
    requires |g.edges| == |order|
    requires forall i | 0 <= i < |order| :: g.edges[i].ends == PairSet(order[i])
    ensures forall i | 0 <= i < |g.edges| :: g.edges[i].ends <= NodeSet(g)
  {
    AllPairsFlattened(order);
  }

  /** Every counter key is some edge. */
  lemma EdgesCover(sg: SkillGraph, order: seq<(string, string)>, g: Graph)
    requires forall e | e in sg.weight :: exists i :: 0 <= i < |order| && PairSet(order[i]) == e
    requires |g.edges| == |order|
    requires forall i | 0 <= i < |order| :: g.edges[i].ends == PairSet(order[i])
    ensures forall e | e in sg.weight :: exists i :: 0 <= i < |g.edges| && g.edges[i].ends == e
  {
    forall e | e in sg.weight ensures exists i :: 0 <= i < |g.edges| && g.edges[i].ends == e {
      var i :| 0 <= i < |order| && PairSet(order[i]) == e;
      assert g.edges[i].ends == e;
    }
  }

  /** A graph built from sorted pairs has no single node. */
  lemma NotOneNode(sg: SkillGraph, order: seq<(string, string)>, g: Graph)
    requires forall i | 0 <= i < |order| :: StrLess(order[i].0, order[i].1)
    requires NoDup(g.nodes) && NodeSet(g) == Elems(Flatten(order))
    ensures |g.nodes| != 1
  {
    if |g.nodes| > 0 {
      assert g.nodes[0] in NodeSet(g);
      var i := FlattenSource(order, g.nodes[0]);
      PairsAreEdges(order);
      PairFlattened(order, i);
      SubsetCard(PairSet(order[i]), NodeSet(g));
      NoDupCard(g.nodes);
    }
  }

  /** `build_skill_cooccurrence_graph` as an `nx.Graph`: its nodes are the
      skills that share a posting with another skill, so it never has
      exactly one node; two skills that share a posting are joined by an
      edge, and each edge carries the number of postings the pair shares. */
  function CooccurrenceGraph(rows: seq<JobRow>, order: seq<(string, string)>): (g: Graph)
    requires Enumerates(BuildCooccurrence(rows).weight, order)
    ensures WellFormed(g) && Loopless(g)
    ensures NodeSet(g) == BuildCooccurrence(rows).nodes
    ensures |g.nodes| != 1
    ensures forall i | 0 <= i < |g.edges| ::
      g.edges[i].ends in BuildCooccurrence(rows).weight
      && g.edges[i].weight == Some(Support(rows, g.edges[i].ends) as real)
    ensures forall e | e in BuildCooccurrence(rows).weight :: exists i :: 0 <= i < |g.edges| && g.edges[i].ends == e
  {
    var sg := BuildCooccurrence(rows);
    var g := ToGraph(sg, order);
    CarriesSupport(rows, sg, g);
    g
  }

  /** The graph built from the co-occurrence counter keeps its nodes, and
      its edge weights are the pairs' support counts. */
  lemma CarriesSupport(rows: seq<JobRow>, sg: SkillGraph, g: Graph)
    requires sg == BuildCooccurrence(rows)
    requires Consistent(sg) ==> NodeSet(g) == sg.nodes && |g.nodes| != 1
    requires forall i | 0 <= i < |g.edges| ::
      g.edges[i].ends in sg.weight && g.edges[i].weight == Some(sg.weight[g.edges[i].ends] as real)
    ensures NodeSet(g) == sg.nodes && |g.nodes| != 1
    ensures forall i | 0 <= i < |g.edges| ::
      g.edges[i].ends in sg.weight && g.edges[i].weight == Some(Support(rows, g.edges[i].ends) as real)
  {
    BuiltConsistent(rows);
  }

  /** Every sorted pair has two distinct endpoints. */
  lemma PairsAreEdges(order: seq<(string, string)>)
    requires forall i | 0 <= i < |order| :: StrLess(order[i].0, order[i].1)
    ensures forall i | 0 <= i < |order| :: |PairSet(order[i])| == 2
  {
    forall i | 0 <= i < |order| ensures |PairSet(order[i])| == 2 {
      StrLessIrreflexive(order[i].0);
    }
  }

  /** For a consistent counter the nodes are exactly the pairs' skills. */
  lemma NodesAreEndpoints(sg: SkillGraph, order: seq<(string, string)>, g: Graph)
    requires Enumerates(sg.weight, order)
    requires NodeSet(g) == Elems(Flatten(order))
    ensures Consistent(sg) ==> NodeSet(g) == sg.nodes
  {
    if !Consistent(sg) {
      return;
    }
    forall s ensures s in NodeSet(g) <==> s in sg.nodes {
      if s in NodeSet(g) {
        var i := FlattenSource(order, s);
        assert PairSet(order[i]) in sg.weight;
      }
      if s in sg.nodes {
        var e :| e in sg.weight && s in e;
        var i :| 0 <= i < |order| && PairSet(order[i]) == e;
        PairFlattened(order, i);
      }
    }
  }

  /** In the co-occurrence graph every degree centrality lies in [0, 1]. */
  lemma CooccurrenceDegreeRange(rows: seq<JobRow>, order: seq<(string, string)>, s: string)
    requires Enumerates(BuildCooccurrence(rows).weight, order)
    requires s in CooccurrenceGraph(rows, order).nodes
    ensures 0.0 <= DegreeCentrality(CooccurrenceGraph(rows, order), s) <= 1.0
  {
    var g := CooccurrenceGraph(rows, order);
    DegreeCentralityRange(g, s);
  }

  /** With every weight at least 1, the weighted degree is at least the
      plain degree. */
  lemma {:induction false} WeightedAtLeastDegree(edges: seq<Edge>, n: string)
    requires forall i | 0 <= i < |edges| :: edges[i].weight.Some? && edges[i].weight.value >= 1.0
    ensures WeightedDegree(edges, n) >= Degree(edges, n) as real
  {
    if |edges| > 0 {
      assert forall i | 1 <= i < |edges| :: edges[1..][i - 1] == edges[i];
      WeightedAtLeastDegree(edges[1..], n);
      var k := Incidence(edges[0], n) as real;
      assert k * edges[0].weight.value >= k;
    }
  }

  /** Every edge of the co-occurrence graph weighs at least 1. */
  lemma EdgeWeightsPositive(rows: seq<JobRow>, order: seq<(string, string)>)
    requires Enumerates(BuildCooccurrence(rows).weight, order)
    ensures forall i | 0 <= i < |CooccurrenceGraph(rows, order).edges| ::
      CooccurrenceGraph(rows, order).edges[i].weight.Some?
      && CooccurrenceGraph(rows, order).edges[i].weight.value >= 1.0
  {
  }

  /** A graph whose edges carry the counts of a counter without zero
      entries has every edge weighing at least 1. */
  lemma WeightsAtLeastOne(sg: SkillGraph, g: Graph)
    requires forall e | e in sg.weight :: sg.weight[e] >= 1
    requires forall i | 0 <= i < |g.edges| ::
      g.edges[i].ends in sg.weight && g.edges[i].weight == Some(sg.weight[g.edges[i].ends] as real)
    ensures forall i | 0 <= i < |g.edges| :: g.edges[i].weight.Some? && g.edges[i].weight.value >= 1.0
  {
  }

  /** The co-occurrence graph counts as weighted whenever it has an edge, and
      then each node's weighted degree is at least its degree. */
  lemma CooccurrenceWeighted(rows: seq<JobRow>, order: seq<(string, string)>, s: string)
    requires Enumerates(BuildCooccurrence(rows).weight, order)
    ensures |CooccurrenceGraph(rows, order).edges| > 0 ==> HasWeights(CooccurrenceGraph(rows, order))
    ensures WeightedDegree(CooccurrenceGraph(rows, order).edges, s) >= Degree(CooccurrenceGraph(rows, order).edges, s) as real
  {
    var sg := BuildCooccurrence(rows);
    var g := ToGraph(sg, order);
    assert CooccurrenceGraph(rows, order) == g;
    WeightsAtLeastOne(sg, g);
    AllWeighted(g, s);
  }

  /** A well-formed graph whose every edge weighs at least 1 counts as
      weighted once it has an edge, and no node's weighted degree is below
      its degree. */
  lemma AllWeighted(g: Graph, s: string)
    requires WellFormed(g)
    requires forall i | 0 <= i < |g.edges| :: g.edges[i].weight.Some? && g.edges[i].weight.value >= 1.0
    ensures |g.edges| > 0 ==> HasWeights(g)
    ensures WeightedDegree(g.edges, s) >= Degree(g.edges, s) as real
  {
    if |g.edges| > 0 {
      ReportsAnEdge(g);
    }
    WeightedAtLeastDegree(g.edges, s);
  }
}

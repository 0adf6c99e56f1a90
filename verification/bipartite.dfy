/** The job-skill bipartite graph (core/graph_analysis.py:12-42).

    Each row with a non-empty job id adds a job node and, for every
    non-empty skill of its normalised skill field, a skill node and a
    job-skill edge. Adding an existing node or edge changes nothing.

    The source puts job ids and skill names into ONE node namespace (lines
    28 and 39), so a skill spelled like a job id is the same node. That
    graph is modelled as written (`SharedGraph`), together with the input
    that breaks it; the rest of the model uses the tagged graph (`Bigraph`),
    in which the two kinds of node cannot meet. */
module Bipartite {
  import opened SkillField

  /** One row of the postings table: `str(row.get("job_id", ""))` and the raw
      `skills_detected` field. */
  datatype JobRow = JobRow(jobId: string, skills: Field)

  /** The `node_type` attribute. */
  datatype NodeType = JobNode | SkillNode

  /** The graph as written: nodes are bare strings carrying their latest
      `node_type`; an edge is the set of its endpoints (one element for a
      self-loop). */
  datatype SharedGraph = SharedGraph(nodeType: map<string, NodeType>, edges: set<set<string>>)

  /** The inner loop at lines 37-40 over the shared namespace: an edge from
      the job to every non-empty skill, and every such skill (re)typed as a
      skill node. */
  function AddSkillsShared(g: SharedGraph, jobId: string, skills: seq<string>): (r: SharedGraph)
    ensures forall e :: e in r.edges <==> e in g.edges || exists s :: s in skills && s != "" && e == {jobId, s}
    ensures forall v :: v in r.nodeType <==> v in g.nodeType || (v != "" && v in skills)
    ensures forall v | v in r.nodeType ::
      r.nodeType[v] == if v != "" && v in skills then SkillNode else g.nodeType[v]
    decreases |skills|
  {
    if |skills| == 0 then g
    else
      var s := skills[0];
      var g' := if s != "" then SharedGraph(g.nodeType[s := SkillNode], g.edges + {{jobId, s}}) else g;
      assert skills == [s] + skills[1..];
      AddSkillsShared(g', jobId, skills[1..])
  }

  /** One iteration of the row loop over the shared namespace: the edges the
      row mentions are added; its job id is typed as a job node, unless the
      row also lists it as a skill, and its skills are typed as skill
      nodes. */
  function AddRowShared(g: SharedGraph, row: JobRow): (r: SharedGraph)
    ensures forall e :: e in r.edges <==>
      e in g.edges || exists s :: Mentions(row, row.jobId, s) && e == {row.jobId, s}
    ensures forall v :: v in r.nodeType <==>
      v in g.nodeType || (v != "" && v == row.jobId) || Mentions(row, row.jobId, v)
    ensures forall v | v in r.nodeType ::
      r.nodeType[v] == if Mentions(row, row.jobId, v) then SkillNode
                       else if v != "" && v == row.jobId then JobNode
                       else g.nodeType[v]
  {
    if row.jobId == "" then g
    else
      AddSkillsShared(SharedGraph(g.nodeType[row.jobId := JobNode], g.edges),
                      row.jobId, Normalize(row.skills))
  }

  /** `build_bipartite_graph` as written. */
  function BuildShared(rows: seq<JobRow>): SharedGraph
  {
    if |rows| == 0 then SharedGraph(map[], {})
    else AddRowShared(BuildShared(rows[..|rows| - 1]), rows[|rows| - 1])
  }

  /** A posting whose skill equals its own job id turns the job node into a
      skill node and joins it to itself; a later posting whose id equals an
      earlier skill makes an edge between two job nodes. */
  lemma SharedNamespaceCollision()
    ensures var g := BuildShared([JobRow("Python", Items(["Python"]))]);
      g.nodeType == map["Python" := SkillNode] && g.edges == {{"Python"}}
    ensures var g := BuildShared([JobRow("1", Items(["SQL"])), JobRow("SQL", Items([]))]);
      {"1", "SQL"} in g.edges && g.nodeType["1"] == JobNode && g.nodeType["SQL"] == JobNode
  {
    var empty := SharedGraph(map[], {});
    var r1 := [JobRow("Python", Items(["Python"]))];
    assert r1[..0] == [];
    var j1 := SharedGraph(map["Python" := JobNode], {});
    assert map["Python" := JobNode]["Python" := SkillNode] == map["Python" := SkillNode];
    assert {"Python", "Python"} == {"Python"};
    assert AddSkillsShared(j1, "Python", ["Python"])
        == AddSkillsShared(SharedGraph(map["Python" := SkillNode], {{"Python"}}), "Python", []);
    assert BuildShared(r1) == AddRowShared(empty, r1[0]);
    var r2 := [JobRow("1", Items(["SQL"])), JobRow("SQL", Items([]))];
    assert r2[..1] == [JobRow("1", Items(["SQL"]))];
    assert r2[..1][..0] == [];
    var j2 := SharedGraph(map["1" := JobNode], {});
    var g2 := SharedGraph(map["1" := JobNode, "SQL" := SkillNode], {{"1", "SQL"}});
    assert AddSkillsShared(j2, "1", ["SQL"]) == AddSkillsShared(g2, "1", []);
    assert BuildShared(r2[..1]) == g2;
    assert BuildShared(r2) == AddRowShared(g2, r2[1]);
  }

  /** A node of the tagged graph: the kind is part of its identity. */
  datatype Node = Job(id: string) | Skill(name: string)

  /** The bipartite graph with tagged nodes; an edge `(j, s)` joins `Job(j)`
      to `Skill(s)`. */
  datatype Bigraph = Bigraph(nodes: set<Node>, edges: set<(string, string)>)

  /** Row `row` asks for the edge between job `j` and skill `s`. */
  ghost predicate Mentions(row: JobRow, j: string, s: string) {
    row.jobId == j && j != "" && s != "" && s in Normalize(row.skills)
  }

  /** Every edge runs between two nodes of the graph. */
  ghost predicate Closed(g: Bigraph) {
    forall j, s :: (j, s) in g.edges ==> Job(j) in g.nodes && Skill(s) in g.nodes
  }

  /** The inner loop: adding node and edge for every non-empty skill. */
  function AddSkills(g: Bigraph, jobId: string, skills: seq<string>): (r: Bigraph)
    ensures forall s :: (jobId, s) in r.edges <==> (jobId, s) in g.edges || (s != "" && s in skills)
    ensures forall j, s :: j != jobId ==> ((j, s) in r.edges <==> (j, s) in g.edges)
    ensures forall v :: v in r.nodes <==> v in g.nodes || (v.Skill? && v.name != "" && v.name in skills)
  {
    Bigraph(g.nodes + (set s | s in skills && s != "" :: Skill(s)),
            g.edges + (set s | s in skills && s != "" :: (jobId, s)))
  }

  /** One iteration of the row loop (lines 25-40): it adds exactly the edges
      the row mentions, its job node when the id is non-empty, and the skill
      nodes of those edges. */
  function AddRow(g: Bigraph, row: JobRow): (r: Bigraph)
    ensures forall j, s :: (j, s) in r.edges <==> (j, s) in g.edges || Mentions(row, j, s)
    ensures forall j :: Job(j) in r.nodes <==> Job(j) in g.nodes || (j != "" && row.jobId == j)
    ensures forall s :: Skill(s) in r.nodes <==> Skill(s) in g.nodes || Mentions(row, row.jobId, s)
  {
    if row.jobId == "" then g
    else AddSkills(Bigraph(g.nodes + {Job(row.jobId)}, g.edges), row.jobId, Normalize(row.skills))
  }

  /** `build_bipartite_graph` with tagged nodes: its edges are exactly the
      pairs some row mentions, its job nodes the non-empty job ids, its skill
      nodes the skills of those rows. */
  function BuildBipartite(rows: seq<JobRow>): (g: Bigraph)
    ensures Closed(g)
    ensures forall j, s :: (j, s) in g.edges <==> exists i :: 0 <= i < |rows| && Mentions(rows[i], j, s)
    ensures forall j :: Job(j) in g.nodes <==> j != "" && exists i :: 0 <= i < |rows| && rows[i].jobId == j
    ensures forall s :: Skill(s) in g.nodes <==> exists j :: (j, s) in g.edges
  {
    if |rows| == 0 then Bigraph({}, {})
    else
      var n := |rows| - 1;
      var g := BuildBipartite(rows[..n]);
      assert forall i :: 0 <= i < n ==> rows[..n][i] == rows[i];
      var g' := AddRow(g, rows[n]);
      BuildStep(rows, g, g');
      g'
  }

  /** The inductive step of `BuildBipartite`. */
  lemma BuildStep(rows: seq<JobRow>, g: Bigraph, g': Bigraph)
    requires |rows| > 0
    requires Closed(g)
    requires forall j, s :: (j, s) in g.edges <==> exists i :: 0 <= i < |rows| - 1 && Mentions(rows[i], j, s)
    requires forall j :: Job(j) in g.nodes <==> j != "" && exists i :: 0 <= i < |rows| - 1 && rows[i].jobId == j
    requires forall s :: Skill(s) in g.nodes <==> exists j :: (j, s) in g.edges
    requires g' == AddRow(g, rows[|rows| - 1])
    ensures Closed(g')
    ensures forall j, s :: (j, s) in g'.edges <==> exists i :: 0 <= i < |rows| && Mentions(rows[i], j, s)
    ensures forall j :: Job(j) in g'.nodes <==> j != "" && exists i :: 0 <= i < |rows| && rows[i].jobId == j
    ensures forall s :: Skill(s) in g'.nodes <==> exists j :: (j, s) in g'.edges
  {
    var n := |rows| - 1;
    forall j, s ensures (j, s) in g'.edges <==> exists i :: 0 <= i < |rows| && Mentions(rows[i], j, s) {
      if exists i :: 0 <= i < |rows| && Mentions(rows[i], j, s) {
        var i :| 0 <= i < |rows| && Mentions(rows[i], j, s);
        if i < n { assert (j, s) in g.edges; }
      }
    }
    forall j ensures Job(j) in g'.nodes <==> j != "" && exists i :: 0 <= i < |rows| && rows[i].jobId == j {
      if j != "" && exists i :: 0 <= i < |rows| && rows[i].jobId == j {
        var i :| 0 <= i < |rows| && rows[i].jobId == j;
        if i < n { assert Job(j) in g.nodes; }
      }
    }
    forall s | Skill(s) in g'.nodes ensures exists j :: (j, s) in g'.edges {
      if Skill(s) !in g.nodes {
        assert (rows[n].jobId, s) in g'.edges;
      }
    }
  }

  /** A row without a job id adds nothing. */
  lemma EmptyJobIdIgnored(g: Bigraph, row: JobRow)
    requires row.jobId == ""
    ensures AddRow(g, row) == g
  {
  }

  /** Adding the same row again changes nothing. */
  lemma AddRowIdempotent(g: Bigraph, row: JobRow)
    ensures AddRow(AddRow(g, row), row) == AddRow(g, row)
  {
  }

  /** The graph depends only on which rows occur, not on their order or
      repetition. */
  lemma BuildOrderInvariant(rows1: seq<JobRow>, rows2: seq<JobRow>)
    requires forall r :: r in rows1 <==> r in rows2
    ensures BuildBipartite(rows1) == BuildBipartite(rows2)
  {
    NodesIncluded(rows1, rows2);
    NodesIncluded(rows2, rows1);
  }

  /** Every row of `rows1` occurring in `rows2` makes the first graph part
      of the second. */
  lemma NodesIncluded(rows1: seq<JobRow>, rows2: seq<JobRow>)
    requires forall r :: r in rows1 ==> r in rows2
    ensures BuildBipartite(rows1).edges <= BuildBipartite(rows2).edges
    ensures BuildBipartite(rows1).nodes <= BuildBipartite(rows2).nodes
  {
    var g1, g2 := BuildBipartite(rows1), BuildBipartite(rows2);
    EdgesIncluded(rows1, rows2);
    forall v | v in g1.nodes ensures v in g2.nodes {
      if v.Job? {
        var i :| 0 <= i < |rows1| && rows1[i].jobId == v.id;
        assert rows1[i] in rows2;
      } else {
        var j :| (j, v.name) in g1.edges;
        assert (j, v.name) in g2.edges;
      }
    }
  }

  /** The edge half of `NodesIncluded`. */
  lemma EdgesIncluded(rows1: seq<JobRow>, rows2: seq<JobRow>)
    requires forall r :: r in rows1 ==> r in rows2
    ensures BuildBipartite(rows1).edges <= BuildBipartite(rows2).edges
  {
    var g1, g2 := BuildBipartite(rows1), BuildBipartite(rows2);
    forall e | e in g1.edges ensures e in g2.edges {
      var i :| 0 <= i < |rows1| && Mentions(rows1[i], e.0, e.1);
      assert rows1[i] in rows2;
    }
  }

  /** No row lists, as a skill, a job id some row carries. */
  ghost predicate NoCollision(rows: seq<JobRow>) {
    forall i, k :: 0 <= i < |rows| && 0 <= k < |rows| ==> !Mentions(rows[k], rows[k].jobId, rows[i].jobId)
  }

  /** The shared graph's edges are the tagged graph's, read as unordered
      pairs. */
  ghost predicate SameEdges(sh: SharedGraph, b: Bigraph) {
    forall e :: e in sh.edges <==> exists j, s :: (j, s) in b.edges && e == {j, s}
  }

  /** The shared graph's nodes are the tagged graph's, tags dropped. */
  ghost predicate SameNodes(sh: SharedGraph, b: Bigraph) {
    forall v :: v in sh.nodeType <==> Job(v) in b.nodes || Skill(v) in b.nodes
  }

  /** A shared node is typed as a job exactly when it is a tagged job. */
  ghost predicate SameTypes(sh: SharedGraph, b: Bigraph) {
    forall v | v in sh.nodeType :: sh.nodeType[v] == if Job(v) in b.nodes then JobNode else SkillNode
  }

  /** One row adds the same edges to both graphs. */
  lemma RowKeepsEdges(sh: SharedGraph, b: Bigraph, row: JobRow)
    requires SameEdges(sh, b)
    ensures SameEdges(AddRowShared(sh, row), AddRow(b, row))
  {
    var sh', b' := AddRowShared(sh, row), AddRow(b, row);
    forall e ensures e in sh'.edges <==> exists j, s :: (j, s) in b'.edges && e == {j, s} {
      if e in sh'.edges && e !in sh.edges {
        var s :| Mentions(row, row.jobId, s) && e == {row.jobId, s};
        assert (row.jobId, s) in b'.edges;
      }
    }
  }

  /** One row adds the same nodes to both graphs. */
  lemma RowKeepsNodes(sh: SharedGraph, b: Bigraph, row: JobRow)
    requires SameNodes(sh, b)
    ensures SameNodes(AddRowShared(sh, row), AddRow(b, row))
  {
  }

  /** One row keeps the types when none of its skills is a job id. */
  lemma RowKeepsTypes(sh: SharedGraph, b: Bigraph, row: JobRow)
    requires SameTypes(sh, b) && SameNodes(sh, b)
    requires forall v :: Mentions(row, row.jobId, v) ==> Job(v) !in AddRow(b, row).nodes
    ensures SameTypes(AddRowShared(sh, row), AddRow(b, row))
  {
  }

  /** The graph as written has the tagged graph's edges, read as unordered
      pairs, and its nodes, tags dropped. */
  lemma {:induction false} SharedAgrees(rows: seq<JobRow>)
    ensures SameEdges(BuildShared(rows), BuildBipartite(rows))
    ensures SameNodes(BuildShared(rows), BuildBipartite(rows))
  {
    if |rows| > 0 {
      var n := |rows| - 1;
      SharedAgrees(rows[..n]);
      var sh, b := BuildShared(rows[..n]), BuildBipartite(rows[..n]);
      assert BuildBipartite(rows) == AddRow(b, rows[n]);
      RowKeepsEdges(sh, b, rows[n]);
      RowKeepsNodes(sh, b, rows[n]);
    }
  }

  /** Without collisions the types come out as intended: a node is typed as
      a job exactly when the tagged graph has it as a job. */
  lemma {:induction false} SharedTypesAgree(rows: seq<JobRow>)
    requires NoCollision(rows)
    ensures SameTypes(BuildShared(rows), BuildBipartite(rows))
  {
    if |rows| > 0 {
      var n := |rows| - 1;
      var front := rows[..n];
      assert forall i | 0 <= i < n :: front[i] == rows[i];
      SharedTypesAgree(front);
      SharedAgrees(front);
      var sh, b := BuildShared(front), BuildBipartite(front);
      assert BuildBipartite(rows) == AddRow(b, rows[n]);
      assert forall v :: Mentions(rows[n], rows[n].jobId, v) ==> Job(v) !in BuildBipartite(rows).nodes;
      RowKeepsTypes(sh, b, rows[n]);
    }
  }
}

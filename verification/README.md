# Skill-gap analysis core in Dafny

This project models the analytics core of a job-postings skill-gap tool in
Dafny and proves properties of the model. Everything is written as pure
functions over immutable data:

- normalising a posting's `skills_detected` field (`SkillField`);
- the job–skill bipartite graph (`Bipartite`);
- the weighted skill co-occurrence graph. `Cooccurrence` covers its counter
  and `SkillNetwork` the `nx.Graph` built from it;
- a small model of an undirected graph with degree, weighted degree and
  degree centrality (`Graphs`);
- the centrality table with its fallback chains (`Centrality`);
- community assignment with its fallbacks and id numbering (`Communities`);
- bridge-skill selection (`Bridge`);
- the skill-gap scorer: per-posting match metrics and the ranked list of
  missing skills (`SkillGap`);
- the cache-file naming of the postings client (`CachePaths`).

Three shared modules support them:

- `Wrappers` holds `Option` and `Result`;
- `Seqs` holds sets of list elements, first occurrence, first-seen
  de-duplication and counting;
- `Ranking` holds a stable descending sort, with its permutation, order and
  stability lemmas.

Calls into networkx, python-louvain and pandas whose results the model cannot
compute become parameters. `Centrality.Attempt` is the outcome of a centrality
call (it raised, or it returned scores). `Communities.Detection` is the outcome
of a community-detection call. Python's Unicode tables beyond ASCII are the
parameter `CachePaths.CharTables`. The co-occurrence graph's edge iteration
order is the parameter `order` of `SkillNetwork.CooccurrenceGraph`.

Two behaviours of the code are worth stating plainly:

- On a graph with at most one node, degree centrality is 1, as
  `nx.degree_centrality` returns.
- When both betweenness calls raise, the exception escapes
  `compute_centralities` (`Centrality.ComputeCentralities` returns
  `Failure`).

## Model

| member | source | states |
|---|---|---|
| SkillField.Split | core/graph_analysis.py:33 | `s.split(",")` yields at least one piece, no piece contains a comma, and joining the pieces with commas gives back `s` |
| SkillField.SplitJoin | core/graph_analysis.py:33 | splitting the comma-join of comma-free pieces gives the same pieces back, so `Split` and `Join` are inverse |
| SkillField.Strip | core/graph_analysis.py:33 | `strip()` returns the slice of `s` from its first to its last non-whitespace character, with only whitespace outside it, and it is empty exactly when `s` is all whitespace |
| SkillField.StrippedPieces | core/graph_analysis.py:33 | a string is in the result exactly when it is non-empty and is the stripped form of some piece |
| SkillField.NormalizeText | core/graph_analysis.py:30-33 | the skills read from a string field are non-empty, comma-free, and start and end with non-whitespace |
| SkillField.NormalizeOthers | core/graph_analysis.py:30-35 | a list field is used unchanged, and any other value yields no skills |
| Bipartite.SharedNamespaceCollision | core/graph_analysis.py:25-40 | as written, posting ("Python", ["Python"]) yields one node typed skill with a self-loop, and postings ("1", ["SQL"]) then ("SQL", []) yield an edge between two job-typed nodes |
| Bipartite.AddSkillsShared | core/graph_analysis.py:37-40 | as written, one job's skill loop adds an edge between the job id and each non-empty skill, adds each non-empty skill as a node typed skill (retyping a job node of that name), and keeps every other node's type |
| Bipartite.AddRowShared | core/graph_analysis.py:25-40 | as written, a row adds the edges from its id to its non-empty skills; a skill name is typed skill, else a non-empty id is typed job, else the old type stays; a row with an empty id changes nothing |
| Bipartite.SharedAgrees | core/graph_analysis.py:12-42 | the graph as written has exactly the tagged graph's edges, each read as the unordered pair {job id, skill}, and exactly the tagged graph's nodes with the tags dropped |
| Bipartite.SharedTypesAgree | core/graph_analysis.py:25-40 | when no row lists a job id as a skill, the graph as written types a node as a job exactly when it is a job of the tagged graph, and as a skill otherwise |
| Bipartite.AddRow | core/graph_analysis.py:25-40 | one row adds exactly the edges it mentions (non-empty id, non-empty skill of its field), its job node when the id is non-empty, and the skill nodes of its edges; nothing else changes |
| Bipartite.BuildBipartite | core/graph_analysis.py:12-42 | every edge joins two nodes of the graph; an edge (j, s) exists exactly when some row with id j lists skill s; the job nodes are exactly the non-empty ids; the skill nodes are exactly the skills with an edge |
| Bipartite.EmptyJobIdIgnored | core/graph_analysis.py:26-27 | a row with an empty job id leaves the graph unchanged |
| Bipartite.AddRowIdempotent | core/graph_analysis.py:28-40 | adding the same row twice gives the same graph as adding it once |
| Bipartite.BuildOrderInvariant | core/graph_analysis.py:22-42 | two row lists with the same rows, in any order and with any repetition, give the same graph |
| Cooccurrence.PostingSkills | core/graph_analysis.py:70 | the de-duplicated skills of a posting have no repeats and are exactly its non-empty normalised skills |
| Cooccurrence.PairKeysCount | core/graph_analysis.py:73-76 | the nested loop over a duplicate-free list forms each two-element subset exactly once and forms nothing else (no self-pair, no double count) |
| Cooccurrence.CountPairs | core/graph_analysis.py:62-76 | after the row loop, the counter of a two-skill pair is the number of postings containing both skills; every other key reads 0; no stored entry is 0 |
| Cooccurrence.BuildCooccurrence | core/graph_analysis.py:45-82 | a pair is an edge exactly when some posting contains both skills; its weight is the number of such postings and is at least 1; the nodes are exactly the endpoints of edges |
| Cooccurrence.SupportPermutation | core/graph_analysis.py:62-76 | the number of postings that contain a pair does not depend on the order of the postings |
| Cooccurrence.CooccurrenceOrderInvariant | core/graph_analysis.py:57-82 | permuting the postings leaves the graph unchanged |
| Cooccurrence.SmallPostingIgnored | core/graph_analysis.py:69-76 | appending a posting with fewer than two distinct skills leaves the graph unchanged |
| Cooccurrence.CooccurrenceNodes | core/graph_analysis.py:78-80 | a skill is a node exactly when some posting lists it together with a different skill; a skill that never co-occurs does not appear |
| SkillNetwork.OrderExists | core/graph_analysis.py:75-80 | every counter keyed by two-skill pairs can be iterated: some order lists each key exactly once, as its sorted pair |
| SkillNetwork.BuiltOrderExists | core/graph_analysis.py:57-80 | the counter built from any postings has such an iteration order, so the co-occurrence graph exists for every input |
| SkillNetwork.ToGraph | core/graph_analysis.py:78-82 | adding one weighted edge per counter entry in iteration order gives a well-formed, loop-free graph; each edge is a counted pair weighted by its count; every counted pair is an edge; for a built counter, the nodes are the counter's endpoints and never exactly one |
| SkillNetwork.CooccurrenceGraph | core/graph_analysis.py:45-82 | the returned graph is well-formed and loop-free; its nodes are the co-occurring skills; it never has exactly one node; every pair of skills that share a posting is an edge, and every edge is such a pair; each edge's weight attribute is the number of postings that contain both endpoints |
| SkillNetwork.CooccurrenceDegreeRange | core/graph_analysis.py:99 | every node of the co-occurrence graph has degree centrality in [0, 1] |
| SkillNetwork.EdgeWeightsPositive | core/graph_analysis.py:79-80 | every edge of the co-occurrence graph carries a weight of at least 1 |
| SkillNetwork.CooccurrenceWeighted | core/graph_analysis.py:101-139 | a co-occurrence graph with edges counts as weighted, and every node's weighted degree is at least its plain degree |
| Graphs.EarliestEdgeAt | core/graph_analysis.py:106 | the earliest-added edge at a node, and none exactly when no edge meets the node |
| Graphs.ReportedAtFirstNode | core/graph_analysis.py:106 | the first edge `G.edges()` reports: the earliest-added edge at the first node that has one, and none exactly when no edge meets a node |
| Graphs.ReportsAnEdge | core/graph_analysis.py:103-107 | a graph with an edge reports one, and it counts as weighted when every edge carries a weight |
| Graphs.ReportingOrderExample | core/graph_analysis.py:103-107 | node `a` alone, then `b`-`c` weighted, then `a`-`b` unweighted: `a`-`b` is reported first, so the graph does not count as weighted |
| Graphs.DegreeBound | core/graph_analysis.py:99 | in a well-formed loop-free graph a node has at most (number of nodes − 1) edges |
| Graphs.DegreeCentralityRange | core/graph_analysis.py:99 | with two or more nodes, degree centrality lies in [0, 1], and it is 1 exactly when the node is joined to every other node |
| Centrality.Absorbed | core/graph_analysis.py:117-133 | closeness and eigenvector scores come from the first call when it returns, else from the unweighted retry when that returns, else 0 |
| Centrality.Betweenness | core/graph_analysis.py:108-115 | an edgeless graph gets betweenness 0 for every node without a library call; with edges, the scores are the first call's when it returns, else the retry's when that returns; the result is missing exactly when both calls raise |
| Centrality.RowOfFits | core/graph_analysis.py:108-150 | a node's row names that node and has degree × (n − 1) = edge count (1 for a lone node); betweenness 0 without edges, and otherwise the node's score from the first betweenness call that returned (0 when it has none); the absorbed closeness and eigenvector scores; and the weighted degree when the first edge `G.edges()` reports is weighted (otherwise the plain degree) |
| Centrality.ComputeCentralities | core/graph_analysis.py:85-152 | an empty graph gives an empty table; the call fails exactly when there are edges and both betweenness calls raise; otherwise there is one row per node (the node column is a permutation of the nodes), rows are in non-increasing degree order, and every row fits as in `RowOfFits` |
| Communities.ChooseAlgorithm | core/graph_analysis.py:170-186 | Louvain runs exactly when it is requested and python-louvain can be imported; otherwise greedy modularity runs |
| Communities.GroupIds | core/graph_analysis.py:180-183 | the numbered nodes are exactly the members of the communities; each node's id is a community containing it, and no later community contains it (the last assignment wins) |
| Communities.GroupIdsOfDisjoint | core/graph_analysis.py:180-183 | with pairwise disjoint communities, every member of the i-th community gets id i |
| Communities.AllZero | core/graph_analysis.py:166-167 | an empty or edgeless graph maps every node, and only the nodes, to community 0 |
| Communities.Singletons | core/graph_analysis.py:193-195 | the exception fallback maps exactly the nodes, each to its position in the node list |
| Communities.SingletonsInjective | core/graph_analysis.py:195 | the exception fallback gives distinct nodes distinct community ids |
| Communities.DetectCommunitiesAsWritten | core/graph_analysis.py:166-197 | as written, exactly the graph's nodes get a community: 0 each in an edgeless graph, and with edges always the fallback's position in the node list |
| Communities.DetectCommunities | core/graph_analysis.py:155-197 | an edgeless graph puts every node in 0; with edges, a raised call gives each node its position, a Louvain partition is returned unchanged and only when Louvain was requested and installed, and a list of communities numbers each member by a community containing it |
| Communities.DetectPartition | core/graph_analysis.py:166-197 | when the library answers with a partition of the nodes, exactly the graph's nodes get a community id |
| Communities.DetectGroupIds | core/graph_analysis.py:177-192 | when greedy modularity runs and returns disjoint communities, every member of the i-th community gets id i |
| Communities.AttributeErrorFinding | core/graph_analysis.py:170-195 | as written, the Python–SQL–Excel triangle is split into the three singleton communities 0, 1 and 2 |
| Communities.TriangleOneCommunity | core/graph_analysis.py:177-183 | as intended, the triangle reported as one community maps all three skills to community 0 |
| Bridge.Kept | core/graph_analysis.py:237 | `nlargest(n)` keeps no rows for n ≤ 0, n rows when 0 ≤ n ≤ the row count, and every row when n is at least the row count |
| Bridge.BridgeSkills | core/graph_analysis.py:222-238 | a table without a betweenness column gives nothing; the object-typed empty table fails with `TypeError`, and only it fails; a numeric table gives min(top_n, rows) projected rows, in non-increasing betweenness, drawn from the table's rows (as a sub-multiset), and every row whose betweenness beats the last kept row is kept |
| Bridge.BridgeOfCentralities | core/graph_analysis.py:95-96 | bridge skills of the centrality table of a graph without nodes raise `TypeError`; for any other graph, unless the betweenness exception escapes, min(top_n, nodes) rows come back, each naming a node of the graph |
| Ranking.SortDesc | core/graph_analysis.py:152 | the descending sort returns a permutation of its input, ordered by non-increasing key |
| Ranking.SortDescStable | core/analysis.py:28 | the sort is stable: input listed in increasing rank comes out ordered by key and then by rank among equal keys |
| Seqs.Distinct | core/analysis.py:20 | the counter's keys have no repeats, are exactly the elements of the list, and appear in order of first occurrence |
| Seqs.Count | core/analysis.py:20 | a skill's counter value is its number of occurrences in the list, positive exactly when it occurs |
| SkillGap.Iterate | core/analysis.py:8 | iterating a list cell gives its items; iterating a string cell gives its one-character strings; iterating anything else raises |
| SkillGap.MatchRatio | core/analysis.py:11-14 | the ratio is the integer 0 when the posting has no skills; otherwise it is the float share of the posting's skills the user has, lies in [0, 1], and is 1 exactly when the user has all of them |
| SkillGap.Annotate | core/analysis.py:8-14 | the row gains exactly the three metric columns and nothing else changes; the counts are the distinct job skills and how many of them the user holds (never more than the job's); the ratio is the integer 0 for a posting without skills and otherwise the float share held/job (`MatchRatio`), so it lies in [0, 1] and is 1 exactly when the user holds every skill of a non-empty set |
| SkillGap.AnnotateAll | core/analysis.py:7-14 | the rows come back in the same order, each annotated |
| SkillGap.PooledLaid | core/analysis.py:16-18 | the pooled list is as long as all postings' skill lists together, and posting i's skills fill it, in order, from the total length of the postings before i |
| SkillGap.PooledCounts | core/analysis.py:16-20 | each skill occurs in the pooled list as often as it occurs over all the postings, and only skills some posting lists occur in it |
| SkillGap.FirstSeenInPostings | core/analysis.py:16-20 | a skill is first seen in the pooled list inside the first posting that lists it, at its first position there |
| SkillGap.EarlierPostingFirst | core/analysis.py:16-28 | a skill first listed by an earlier posting comes before one first listed by a later posting in first-seen order |
| SkillGap.Tally | core/analysis.py:20 | the counter has one entry per distinct skill, in first-seen order, with its number of occurrences as count and as priority |
| SkillGap.KeepMissing | core/analysis.py:22-30 | an entry is kept exactly when its skill is not one the user has |
| SkillGap.KeepMissingLex | core/analysis.py:28-29 | filtering keeps the order by count and then by first occurrence |
| SkillGap.MissingSkills | core/analysis.py:16-30 | each skill that occurs and that the user lacks is listed exactly once, and nothing else is listed; count and priority are its number of occurrences; the list runs by non-increasing count, ties by first occurrence |
| SkillGap.Check | core/analysis.py:7-8 | there is no error exactly when every posting's skills can be read; otherwise the error belongs to the first unreadable posting and is a KeyError exactly when that posting lacks the column |
| SkillGap.ComputeSkillGap | core/analysis.py:4-32 | the call fails exactly when some posting cannot be read, with the first such posting's error; otherwise the postings come back annotated, in order; a skill is in the missing list exactly when some posting lists it and the user lacks it, and then once, with its total occurrences over the postings as count and priority; the list runs by non-increasing count, ties by first occurrence across the postings |
| SkillGap.SingleMissing | core/analysis.py:20-30 | when exactly one occurring skill is unknown to the user, the missing list is that skill alone, with its occurrence count |
| SkillGap.MissingExample | core/analysis.py:20-30 | the pooled list Python, Python, SQL with a user who knows SQL gives only Python, with count 2 and priority 2 |
| SkillGap.SinglePosting | core/analysis.py:4-32 | with one readable posting, the result is that posting annotated, and the missing list is computed from that posting's raw skills |
| SkillGap.AnnotateExample | core/analysis.py:8-14 | a posting listing Python twice and SQL once, for a user who knows SQL, gets 2 job skills, 1 held, ratio 0.5 |
| CachePaths.AsciiLower | core/api_client.py:16 | lowercasing shifts A–Z by 32, leaves every other ASCII character alone, and never yields an uppercase letter |
| CachePaths.Sanitize | core/api_client.py:15-16 | on ASCII input the length is kept, each alphanumeric character becomes its lowercase form, each other character becomes `_`, and only lowercase letters, digits and `_` are produced |
| CachePaths.SanitizeIdempotent | core/api_client.py:15-16 | sanitizing twice gives the same result as sanitizing once |
| CachePaths.SanitizeNoSeparator | core/api_client.py:15-16 | no `/` and no `.` survive sanitizing ASCII input |
| CachePaths.CachePath | core/api_client.py:18-22 | the path is one component below the data directory; for ASCII input that name starts with `raw_jobs_`, ends with `.json` and contains no `/` |
| CachePaths.CacheNameInjectiveByParts | core/api_client.py:18-22 | ASCII roles of equal length give the same file exactly when their sanitized roles agree and their sanitized locations agree |
| CachePaths.CacheCollision | core/api_client.py:15-22 | different roles `a b` and `a-b` with the same location share one cache file |
| CachePaths.SeparatorCollision | core/api_client.py:18-22 | moving an `_`-joined part from the role to the location (`x_y` / `z` versus `x` / `y_z`) gives the same cache file for different inputs |

## Left out

- Betweenness on a graph with edges, closeness and eigenvector centrality, Louvain and greedy modularity are networkx and python-louvain algorithms. Their outcomes are parameters (`Centrality.Library`, `Communities.Detection`), and the model does not state their numerical properties.
- Centrality.ComputeCentralities: states only that the table is a permutation of the nodes' rows in non-increasing degree. pandas `sort_values` does not promise a tie order, so the insertion sort is one admissible order and no tie order is promised.
- Bridge.BridgeSkills: ties at the cut-off are not pinned to `keep="first"`. The contract states the selection property, which every tie order satisfies.
- Communities.DetectCommunities: whether python-louvain or greedy modularity really partitions the nodes is the library's promise, not the model's. `Communities.DetectPartition` and `Communities.DetectGroupIds` take it as a hypothesis.
- Bipartite.SharedTypesAgree: the node types of the graph as written match the tagged graph only when no row lists a job id as a skill. `Bipartite.SharedNamespaceCollision` shows what happens otherwise.
- A missing score read with `.get(n, 0)` is the integer 0; the model writes 0.0, since the two compare equal.
- CachePaths.Sanitize: for characters from U+0080 on, `str.isalnum` and `str.lower` come from the table parameter, and the contracts state properties for ASCII input only. `str.lower` can also lengthen a non-ASCII character.
- `str(row.get("job_id", ""))` is taken as already converted: `JobRow.jobId` is the string. How a NaN or a number prints is not modelled.
- Python's set and `Counter` iteration order depends on string hashing. The model uses first-seen order for `list(set(...))`, and the co-occurrence edge order is the parameter `order`. The counts and graphs proved here do not depend on either order.
- `compute_skill_gap` writes its metrics into the caller's dictionaries. The model returns new records instead.
- `fetch_from_api` and the rest of core/api_client.py (HTTP requests, reading and writing the cache files, the API-key check at import) are I/O and are not modelled. core/config.py is not part of this model; `DATA_DIR` is the parameter `dataDir` of `CachePaths.CachePath`, and a path is a list of components.
- `get_skill_network_metrics` only composes `build_skill_cooccurrence_graph`, `compute_centralities` and `detect_communities`, each modelled separately.
- core/skills_extraction.py, app.py, adzuna_fetch.py and create_taxonomy_file.py are text matching, the Streamlit UI and data-fetching scripts, outside the analytics core.
- Floating-point rounding is not modelled: scores and ratios are Dafny `real`.

## Findings

| source | as written | input that shows it | evidently intended | confidence | as-written member | corrected member |
|---|---|---|---|---|---|---|
| core/graph_analysis.py:25-40 | job ids and skill names share one node namespace, and `add_node` overwrites `node_type` | posting ("Python", ["Python"]): the job node is retyped as a skill and gets a self-loop; postings ("1", ["SQL"]), ("SQL", []): an edge joins two job-typed nodes | a bipartite graph in which job and skill nodes are distinct, so every edge joins a job to a skill | high (not executed) | Bipartite.SharedNamespaceCollision | Bipartite.BuildBipartite |
| core/graph_analysis.py:170-195 | every library call evaluates `graph.is_weighted()`, which `nx.Graph` does not define; the `AttributeError` is caught at line 193 | the Python–SQL–Excel triangle gets communities {Python: 0, SQL: 1, Excel: 2} whatever the partition | use the library's partition (for example `nx.is_weighted(graph)`) and fall back to singletons only when the algorithm fails | high (not executed) | Communities.AttributeErrorFinding | Communities.DetectCommunities |

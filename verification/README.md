# Embedding-model builder and job-shop conflict graph, in Dafny

This project models two parts of a small quantum-annealing toolkit.

**ip_embed.py — the 0/1 embedding model.** Two undirected graphs go in: `target` and `graph`. The builder
creates one binary variable `x[v, w]` for each target node `v` and graph node `w`. It then emits the
constraint families that describe an embedding:
- a global size bound;
- well-definedness;
- fiber sizes;
- fiber-size refinement;
- edge pullback;
- chain connectivity.

Pullback and chain connectivity are linearised with the product variables `delta_p`, `delta_o` and
`gamma`. The model replaces the solver object with plain data. Each builder returns the
`Constraint` values it would register, and `Sat(a, cs)` says when a 0/1 assignment `a` satisfies them.
Every builder is then characterised by what its constraints mean for a satisfying assignment.
`nx.all_simple_paths(target, x1, x2, k)` is specified as the list of simple paths from `x1` to `x2`
with at most `k` edges. It is implemented by a depth-first enumeration that is proved sound, complete
and free of repetitions (`Paths.AllSimplePaths`).

**jss_graph.py — the job-shop conflict graph.** It covers:
- the nodes `(m, j, t)` and the task groups of `build_graph`;
- the same-operation edges, consecutive-operation edges and same-machine overlap edges (`soo_edges`,
  `oo_edges`, `I_set`, `A_set`, `otm_edges`);
- the head/tail window pruning of `simple_pruning`.

Modules follow the source: `Seqs` (sequence helpers), `Paths`, `Constraints`, `IpEmbed`,
`EmbedProperties` (lemmas relating several builders), `JssGraph` and `JssPruning`.

Facts about the code the model keeps:
- `x[v, w]` takes `v` from `target` and `w` from `graph`; chains are enumerated in `target`.
- The fiber upper bound is not the parameter `k` (see Findings).
- No parameter is range-checked; a negative `k` yields no chains.

## Model

| member | source | states |
|---|---|---|
| IpEmbed.DefineDecisionVariables | ip_embed.py:11-17 | var_dict holds the key (v, w) exactly when v is a target node and w a graph node, once each; there are `|target| * |graph|` keys |
| IpEmbed.DefineGammaVariables | ip_embed.py:20-31 | one gamma per non-empty chain and none for an empty one, in chain order; each defining constraint holds exactly when gamma is 1 iff every interior node of its chain (positions 1 .. len-2) is in the fiber of j, so a two-node chain forces gamma to 1 |
| IpEmbed.DefineDeltaP | ip_embed.py:33-36 | the delta_p definition holds exactly when delta is 1 iff x[x1, y1] and x[x2, y2] are both 1 |
| IpEmbed.DefineDeltaO | ip_embed.py:38-41 | the delta_o definition holds exactly when delta is 1 iff x[x1, y2] and x[x2, y1] are both 1 (graph endpoints swapped) |
| IpEmbed.AddSizeConstraint | ip_embed.py:43-45 | an assignment satisfies the two size constraints iff the number of decision variables set to 1 lies in [min, max] |
| IpEmbed.AddWdConstraint | ip_embed.py:47-53 | one constraint per target node; together they hold iff every target node lies in at most one fiber |
| IpEmbed.AddFsConstraint | ip_embed.py:55-62 | two constraints per graph node; they hold iff every fiber is non-empty and has at most ShadowedBound(target, k) nodes, i.e. the last target node's label (or k when target is empty) |
| IpEmbed.AddFsConstraintIntended | ip_embed.py:55-62 | the fiber-size constraints with the parameter as bound: they hold iff every fiber has between 1 and k target nodes |
| EmbedProperties.FiberNonEmpty | ip_embed.py:55-62 | whatever bound is used, an assignment that satisfies the fiber-size constraints maps some target node to every graph node (surjectivity) |
| IpEmbed.AddFsRefinement | ip_embed.py:64-74 | a constraint is emitted iff it is x[x1, j] + x[x2, j] <= 1 for a visited pair (x1, x2), a graph node j, and no chain of at most k edges joins x1 and x2 in target |
| EmbedProperties.PairsVisitOnce | ip_embed.py:65-69 | the pair loops visit each unordered pair of distinct target nodes exactly once, in one of its two orientations, for any iteration order of the node set |
| EmbedProperties.RefinementEmitted | ip_embed.py:64-74 | for distinct target nodes x1, x2 and graph node j, a refinement inequality on them (in either orientation) is emitted iff x1 and x2 are not joined by a chain of at most k edges |
| EmbedProperties.RefinementSemantics | ip_embed.py:64-74 | an assignment satisfies the refinement iff no fiber contains two target nodes that no chain of at most k edges joins |
| Paths.AllSimplePaths | ip_embed.py:70 | the listed paths are exactly the simple paths from x1 to x2 in target with at most k edges, each once |
| Paths.LinkedSymmetric | ip_embed.py:70 | being joined by such a chain does not depend on the direction |
| IpEmbed.AddPullbackConstraint | ip_embed.py:77-86 | `|graph.edges| * (3 * |target.edges| + 1)` constraints, satisfied by an assignment iff for every graph edge every delta equals its product and exactly one (target edge, orientation) maps onto that graph edge |
| IpEmbed.PullbackForSat | ip_embed.py:78-86 | for one graph edge: the emitted constraints hold iff every delta equals its product and exactly one (target edge, orientation) maps onto the graph edge, since the final running bound implies the earlier ones |
| IpEmbed.PullbackSemantics | ip_embed.py:77-86 | the whole pullback family holds iff the above holds for every graph edge |
| EmbedProperties.PullbackWithoutTargetEdges | ip_embed.py:77-86 | with no target edges and at least one graph edge, no assignment satisfies the pullback family (it contains 1 <= 0) |
| IpEmbed.FiberBlock | ip_embed.py:97-101 | for a graph node j and a pair: nothing when no chain joins the pair; otherwise one gamma definition per chain, in order, followed by one inequality over x[x1, j], x[x2, j] and all the gammas |
| EmbedProperties.FiberIneqBinds | ip_embed.py:101 | the chain inequality holds for every 0/1 assignment iff it has at most one gamma, so with a single chain it never binds |
| IpEmbed.FiberBlockIff | ip_embed.py:97-101 | the block for a graph node j and a pair holds iff, when a chain joins the pair, every chain's gamma is 1 exactly when the chain's interior lies in the fiber of j and x[x1, j] + x[x2, j] + (number of such chains) <= 3 |
| IpEmbed.AddFiberConstraint | ip_embed.py:89-101 | an assignment satisfies the chain family iff the block condition above holds for every graph node and every visited pair |
| EmbedProperties.FiberSemantics | ip_embed.py:89-101 | an assignment satisfying the chain family has, for every graph node j and every visited pair joined by a chain, x[x1, j] + x[x2, j] + (number of chains whose interior lies in the fiber of j) <= 3 |
| EmbedProperties.FiberInequalityCount | ip_embed.py:89-101 | the chain family has exactly `|graph.nodes|` times (number of visited pairs joined by a chain) inequalities, and every other constraint it emits is a product defining a gamma variable |
| JssGraph.Nodes | jss_graph.py:43-51 | the nodes are exactly the triples (m, j, t) with m < n_machines, j < n_jobs and t < timespan, each listed once |
| JssGraph.TaskGroup | jss_graph.py:58-73 | task group i of a job is the nodes (m_i, job, t) in increasing t, where m_i is the machine of the job's i-th task, and is empty when m_i is not a machine index |
| JssGraph.SooEdges | jss_graph.py:85-102 | the curved list holds exactly the pairs ((m, j, t), (m, j, k)) of graph nodes with k > t + 1, the straight list exactly those with k = t + 1; together they partition all pairs t < k, with no repetitions |
| JssGraph.OoEdges | jss_graph.py:104-124 | an edge is listed iff it joins (m_i, job, t), for a task i < n_machines - 1 and t < timespan, to (m_(i+1), job, t_p) with t_p < min(t + p_i, timespan) |
| JssGraph.ISet | jss_graph.py:126-151 | I_set(m) holds exactly the ordered pairs ((m, j1), (m, j2)) of different jobs that both have a task on m; it is irreflexive and symmetric |
| JssGraph.LastOn | jss_graph.py:165-167 | the duration read is that of the job's last task on m |
| JssGraph.ASet | jss_graph.py:153-174 | A_set(m) holds exactly the pairs ((m, j1, t), (m, j2, t_p)) of conflicting jobs with 0 <= t_p - t < p and both times inside the horizon, where p is the duration of j1's last task on m |
| JssGraph.OtmEdges | jss_graph.py:177-188 | an edge is listed iff it lies in A_set of its machine; no edge is listed twice |
| JssPruning.WindowWidth | jss_graph.py:201-216 | every task at an index below n_machines has a window of width timespan minus the durations of the job's first n_machines tasks (its total duration when it has exactly n_machines tasks); the tail leaves room for the task and its successors up to task n_machines - 1, and each head is the predecessor's head plus its duration |
| JssPruning.RmNodes | jss_graph.py:233-240 | a graph node is listed for removal iff some task of its job on its machine has a window that excludes its time step |
| JssPruning.RmNodesDistinct | jss_graph.py:233-242 | the removal list has no repetitions iff no graph node is excluded by two different tasks of its job |
| JssPruning.PruneTaskGroup | jss_graph.py:261-269 | removing the listed nodes from a task group leaves exactly its other nodes, in order |
| JssPruning.PruneEdgeGroup | jss_graph.py:271-280 | the group never grows; a group without repeated edges keeps exactly the edges that touch no removed node, in order |
| JssPruning.SimplePruning | jss_graph.py:190-282 | the call fails iff some graph node is excluded twice (the second node removal raises); otherwise the graph, pos_dict and task groups lose exactly the nodes outside their window, edges go with their endpoints, repetition-free edge groups keep exactly the edges between remaining nodes, the extended instance is returned, and nothing else changes |
| JssPruning.PruningSucceeds | jss_graph.py:233-242 | when no job visits a machine twice (as in generated instances), pruning does not fail |
| Seqs.RemoveEachFiltered | jss_graph.py:264-269 | removing, one `list.remove` at a time, every element of a list that satisfies p leaves exactly the elements that do not |

## Left out

- Solver mechanics: variable objects, names and `addConstr` bookkeeping are not modelled, and nothing is solved. Constraints are data and a satisfying assignment is a predicate.
- Product definitions with more than two factors (gammas of chains with three or more interior nodes) are given their exact AND meaning. The solver library accepts at most quadratic expressions and may reject such a product.
- The order in which `nx.all_simple_paths` yields paths follows the graph's adjacency order. The model explores neighbours in the order of `target.nodes`. Only the set of chains and their number are claimed.
- Python set iteration order. It is a parameter: `order` for `set(target.nodes)` and `orders` for each `A_set(m)`. Every stated property holds for every order. The chain family uses one iteration order for every graph node. The inner pair loop iterates the fresh set `t_nodes - ls`; the model takes its order to be the rest of `order` after x1.
- The parameter `k` of `define_gamma_variables` is unused in the source and is dropped.
- NetworkX graph objects are node and edge lists without repetitions. Values in the model are immutable, so `copy.deepcopy` is the identity. Aliasing between the groups passed to `simple_pruning` is not modelled. `deepcopy` preserves it, so a list object that occurs twice among the groups is pruned in place once per occurrence (jss_graph.py:262-280). For a list without repetitions the later passes find nothing left to remove.
- `generate_random_instance` (randomness), `get_variables` (a zero array), the `pos` coordinates and `pos_dict` construction of `build_graph`, and the plotting imports are left out.
- The edge-removal loop in `simple_pruning` (jss_graph.py:244-251) iterates over nodes and never matches, so it is modelled as doing nothing. Edges of removed nodes disappear because removing a node removes its edges.
- The commented-out single-machine bound (jss_graph.py:219-230) and I_set deduplication (jss_graph.py:144-149) are not modelled because they do not execute.
- Index errors are preconditions rather than error results:
  - `PruneIndexable`: a non-empty job has at least n_machines tasks.
  - `OoIndexable`: the task entries `oo_edges` reads exist.
  - `HasFirstJob`: `instance[0]` exists.
  - `Covers`: var_dict holds every (target node, graph node) key, the full key set `define_decision_variables` produces.
  - `CoversEdges`: every var_dict key the pullback family reads exists.
- JssPruning.PruneEdgeGroup: the result is characterised only for groups without repeated edges. For a group that repeats an edge, only the first copy is removed; `JssPruning.RepeatedEdgeSurvives` exhibits this.
- JssPruning.SimplePruning: edge groups with repeated edges are constrained only by PruneEdgeGroup's weaker contract.
- JssPruning.WindowWidth: covers tasks at index below n_machines. A task beyond that index keeps tail = timespan. Durations of tasks at index n_machines or later never enter any tail, so for a job with more than n_machines tasks the width is not timespan minus its total duration.
- JssGraph.TaskGroups: states only the shape and node membership of all task groups. The exact content of each group is TaskGroup's contract.
- Node labels are integers. The shadowed fiber bound compares a sum with a node label, which only makes sense for numeric labels.

## Findings

| source | as written | input that shows it | evidently intended | confidence | as-written member | corrected member |
|---|---|---|---|---|---|---|
| ip_embed.py:55-62 | the inner loop variable `k` rebinds the parameter `k`, so each fiber's upper bound is the last target node's label (or `k` itself when target has no nodes) | target with the single node 0, graph with one node, k = 1: the bound is 0 and the lower bound is 1, so no assignment is feasible, although mapping node 0 onto the graph node has a fiber of size 1 <= k; with target nodes 7 and 8 and k = 1 the fiber {7, 8} is accepted | every fiber has at most `k` target nodes | not executed | IpEmbed.AddFsConstraint, EmbedProperties.ShadowedBoundCounterexample, EmbedProperties.ShadowedBoundTooLoose | IpEmbed.AddFsConstraintIntended |

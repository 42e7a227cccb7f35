/** simple_pruning of jss_graph.py: per task, the earliest start (head) and latest
    start (tail) a job allows when its tasks run back to back; every node outside
    its task's window is removed from the graph, the positions, the task groups and
    the edge groups. */
module JssPruning {
  import opened Seqs
  import opened JssGraph

  /** A task extended with its time window: `task + (head, tail)`. */
  datatype ExtTask = ExtTask(machine: int, duration: int, head: int, tail: int)

  /** The task list entries the head/tail loops read: a job with any task has at least n_machines of them. */
  predicate PruneIndexable(inst: Instance) {
    HasFirstJob(inst) && forall job | 0 <= job < NJobs(inst) :: inst.jobs[job] == [] || NMachines(inst) <= |inst.jobs[job]|
  }

  /** Sum of the durations of tasks lo .. hi - 1. */
  function DurSum(tasks: seq<Task>, lo: int, hi: int): int
    requires 0 <= lo && (hi <= lo || hi <= |tasks|)
    decreases hi - lo
  {
    if hi <= lo then 0 else tasks[lo].duration + DurSum(tasks, lo + 1, hi)
  }

  lemma {:induction false} DurSumSplit(tasks: seq<Task>, lo: int, mid: int, hi: int)
    requires 0 <= lo <= mid <= hi <= |tasks|
    ensures DurSum(tasks, lo, hi) == DurSum(tasks, lo, mid) + DurSum(tasks, mid, hi)
    decreases mid - lo
  {
    if lo < mid {
      DurSumSplit(tasks, lo + 1, mid, hi);
    }
  }

  /** Task idx of job `job` with head = durations of the tasks before it and
      tail = timespan minus the durations from it up to task n_machines - 1. */
  function ExtendTask(inst: Instance, job: int, idx: int): (x: ExtTask)
    requires PruneIndexable(inst) && 0 <= job < NJobs(inst) && 0 <= idx < |inst.jobs[job]|
    ensures x.machine == inst.jobs[job][idx].machine && x.duration == inst.jobs[job][idx].duration
  {
    var tasks := inst.jobs[job];
    ExtTask(tasks[idx].machine, tasks[idx].duration, DurSum(tasks, 0, idx),
            inst.timespan - DurSum(tasks, idx, NMachines(inst)))
  }

  /** ext_instance: every job's tasks, each with its window appended. */
  function ExtendInstance(inst: Instance): (ext: seq<seq<ExtTask>>)
    requires PruneIndexable(inst)
    ensures |ext| == NJobs(inst)
    ensures forall job | 0 <= job < |ext| :: |ext[job]| == |inst.jobs[job]|
    ensures forall job, idx | 0 <= job < |ext| && 0 <= idx < |ext[job]| :: ext[job][idx] == ExtendTask(inst, job, idx)
  {
    seq(NJobs(inst), job requires 0 <= job < NJobs(inst) =>
      seq(|inst.jobs[job]|, idx requires 0 <= idx < |inst.jobs[job]| => ExtendTask(inst, job, idx)))
  }

  /** Every task within the first n_machines has a window of the same width:
      timespan minus the durations of the job's first n_machines tasks; the head
      is the finish of the predecessor and the tail leaves room for the task and
      its successors up to task n_machines - 1. */
  lemma WindowWidth(inst: Instance, job: int, idx: int)
    requires PruneIndexable(inst) && 0 <= job < NJobs(inst) && 0 <= idx < NMachines(inst)
    requires idx < |inst.jobs[job]|
    ensures var x := ExtendTask(inst, job, idx);
            x.tail - x.head == inst.timespan - DurSum(inst.jobs[job], 0, NMachines(inst))
    ensures var x := ExtendTask(inst, job, idx);
            x.tail + DurSum(inst.jobs[job], idx, NMachines(inst)) == inst.timespan
    ensures idx + 1 < |inst.jobs[job]| ==>
              ExtendTask(inst, job, idx + 1).head == ExtendTask(inst, job, idx).head + inst.jobs[job][idx].duration
  {
    var tasks := inst.jobs[job];
    DurSumSplit(tasks, 0, idx, NMachines(inst));
    if idx + 1 < |tasks| {
      DurSumSplit(tasks, 0, idx, idx + 1);
    }
  }

  // ---------------------------------------------------------------------------
  // Node removal

  predicate OutsideWindow(x: ExtTask, n: Op) {
    n.time < x.head || n.time > x.tail
  }

  /** Some task of n's job on n's machine excludes n's time step from its window. */
  predicate Doomed(ext: seq<seq<ExtTask>>, n: Op) {
    && 0 <= n.job < |ext|
    && exists k :: 0 <= k < |ext[n.job]| && ext[n.job][k].machine == n.machine && OutsideWindow(ext[n.job][k], n)
  }

  /** The innermost loop: the graph nodes a single task of a job excludes. */
  function Violators(nodes: seq<Op>, job: int, x: ExtTask): (r: seq<Op>)
    ensures forall n :: n in r <==> n in nodes && n.machine == x.machine && n.job == job && OutsideWindow(x, n)
    ensures Distinct(nodes) ==> Distinct(r)
  {
    Filter(nodes, (n: Op) => n.machine == x.machine && n.job == job && OutsideWindow(x, n))
  }

  function RmJob(ext: seq<seq<ExtTask>>, nodes: seq<Op>, job: int): (r: seq<Op>)
    requires 0 <= job < |ext|
    ensures forall n :: n in r <==> n in nodes && n.job == job && Doomed(ext, n)
  {
    var f := k requires 0 <= k < |ext[job]| => Violators(nodes, job, ext[job][k]);
    assert forall n, k | n in nodes && n.job == job && 0 <= k < |ext[job]| && ext[job][k].machine == n.machine
                         && OutsideWindow(ext[job][k], n) :: n in f(k);
    FlatRange(0, |ext[job]|, f)
  }

  /** rm_nodes: job by job, task by task, the graph nodes outside that task's window. */
  function RmNodes(ext: seq<seq<ExtTask>>, nodes: seq<Op>): (r: seq<Op>)
    ensures forall n :: n in r <==> n in nodes && Doomed(ext, n)
  {
    var f := job requires 0 <= job < |ext| => RmJob(ext, nodes, job);
    assert forall n | n in nodes && Doomed(ext, n) :: n in f(n.job);
    FlatRange(0, |ext|, f)
  }

  /** Two different tasks of n's job on n's machine both exclude n: rm_nodes lists n twice. */
  predicate DoomedTwice(ext: seq<seq<ExtTask>>, n: Op) {
    && 0 <= n.job < |ext|
    && exists k1, k2 :: 0 <= k1 < k2 < |ext[n.job]|
         && ext[n.job][k1].machine == n.machine && OutsideWindow(ext[n.job][k1], n)
         && ext[n.job][k2].machine == n.machine && OutsideWindow(ext[n.job][k2], n)
  }

  /** rm_nodes repeats a node exactly when some graph node is excluded by two tasks. */
  lemma RmNodesDistinct(ext: seq<seq<ExtTask>>, nodes: seq<Op>)
    requires Distinct(nodes)
    ensures Distinct(RmNodes(ext, nodes)) <==> forall n | n in nodes :: !DoomedTwice(ext, n)
  {
    if forall n | n in nodes :: !DoomedTwice(ext, n) {
      RmNodesOnce(ext, nodes);
    } else {
      var n :| n in nodes && DoomedTwice(ext, n);
      RmNodesRepeat(ext, nodes, n);
    }
  }

  lemma RmJobOnce(ext: seq<seq<ExtTask>>, nodes: seq<Op>, job: int)
    requires Distinct(nodes) && 0 <= job < |ext|
    requires forall n | n in nodes :: !DoomedTwice(ext, n)
    ensures Distinct(RmJob(ext, nodes, job))
  {
    var g := k requires 0 <= k < |ext[job]| => Violators(nodes, job, ext[job][k]);
    forall k1, k2, n | 0 <= k1 < k2 < |ext[job]| && n in g(k1) ensures n !in g(k2) {
      assert !DoomedTwice(ext, n);
    }
    FlatRangeDistinct(0, |ext[job]|, g);
  }

  lemma RmNodesOnce(ext: seq<seq<ExtTask>>, nodes: seq<Op>)
    requires Distinct(nodes)
    requires forall n | n in nodes :: !DoomedTwice(ext, n)
    ensures Distinct(RmNodes(ext, nodes))
  {
    var f := job requires 0 <= job < |ext| => RmJob(ext, nodes, job);
    forall job | 0 <= job < |ext| ensures Distinct(f(job)) {
      RmJobOnce(ext, nodes, job);
    }
    FlatRangeDistinct(0, |ext|, f);
  }

  lemma RmJobRepeat(ext: seq<seq<ExtTask>>, nodes: seq<Op>, n: Op)
    requires n in nodes && DoomedTwice(ext, n)
    ensures !Distinct(RmJob(ext, nodes, n.job))
  {
    var k1, k2 :| 0 <= k1 < k2 < |ext[n.job]|
       && ext[n.job][k1].machine == n.machine && OutsideWindow(ext[n.job][k1], n)
       && ext[n.job][k2].machine == n.machine && OutsideWindow(ext[n.job][k2], n);
    var job := n.job;
    var g := k requires 0 <= k < |ext[job]| => Violators(nodes, job, ext[job][k]);
    assert n in g(k1) && n in g(k2);
    FlatRangeRepeats(0, |ext[job]|, g, k1, k2, n);
  }

  lemma RmNodesRepeat(ext: seq<seq<ExtTask>>, nodes: seq<Op>, n: Op)
    requires n in nodes && DoomedTwice(ext, n)
    ensures !Distinct(RmNodes(ext, nodes))
  {
    RmJobRepeat(ext, nodes, n);
    var f := job requires 0 <= job < |ext| => RmJob(ext, nodes, job);
    if Distinct(RmNodes(ext, nodes)) {
      FlatRangePieceDistinct(0, |ext|, f, n.job);
    }
  }

  // ---------------------------------------------------------------------------
  // The pruned outputs

  /** The networkx graph handed in: its node list has no repetitions and every edge joins two of its nodes. */
  datatype JGraph = JGraph(nodes: seq<Op>, edges: seq<OpEdge>)

  predicate IsGraph(g: JGraph) {
    Distinct(g.nodes) && forall e | e in g.edges :: e.0 in g.nodes && e.1 in g.nodes
  }

  predicate Touches(e: OpEdge, rm: seq<Op>) {
    e.0 in rm || e.1 in rm
  }

  /** One task group after `remove` of each of its nodes listed in rm_nodes: exactly the others, in order. */
  function PruneTaskGroup(g: seq<Op>, rm: seq<Op>): (r: seq<Op>)
    ensures r == Filter(g, (n: Op) => n !in rm)
  {
    RemoveEachFiltered(g, (n: Op) => n in rm, (n: Op) => n !in rm);
    RemoveEach(g, Filter(g, (n: Op) => n in rm)).value
  }

  /** One edge group after `remove` of each distinct edge touching a removed node.
      Only the first copy of a repeated edge goes; on a group without repetitions
      this leaves exactly the edges touching no removed node. */
  function PruneEdgeGroup(group: seq<OpEdge>, rm: seq<Op>): (r: seq<OpEdge>)
    ensures |r| <= |group|
    ensures Distinct(group) ==> r == Filter(group, (e: OpEdge) => !Touches(e, rm))
  {
    var doomed := CollectOnce(group, (e: OpEdge) => Touches(e, rm), []);
    RemoveEachDistinct(group, doomed);
    EdgeGroupWithoutRepeats(group, rm);
    RemoveEach(group, doomed).value
  }

  lemma EdgeGroupWithoutRepeats(group: seq<OpEdge>, rm: seq<Op>)
    ensures Distinct(group) ==>
              RemoveEach(group, CollectOnce(group, (e: OpEdge) => Touches(e, rm), [])) == Some(Filter(group, (e: OpEdge) => !Touches(e, rm)))
  {
    if Distinct(group) {
      CollectOnceDistinct(group, (e: OpEdge) => Touches(e, rm), []);
      assert [] + Filter(group, (e: OpEdge) => Touches(e, rm)) == Filter(group, (e: OpEdge) => Touches(e, rm));
      RemoveEachFiltered(group, (e: OpEdge) => Touches(e, rm), (e: OpEdge) => !Touches(e, rm));
    }
  }

  datatype Pruned<P> = Pruned(graph: JGraph, ext: seq<seq<ExtTask>>, pos: map<Op, P>,
                              taskGroups: seq<seq<seq<Op>>>, edgeGroups: seq<seq<OpEdge>>)

  /** The removal steps once rm_nodes is known: remove_node for each listed node
      (which also drops the node's edges), the pos loop, the node-group loop and
      the edge-group loop. */
  function RemoveListed<P>(graph: JGraph, ext: seq<seq<ExtTask>>, pos: map<Op, P>,
                           taskGroups: seq<seq<seq<Op>>>, edgeGroups: seq<seq<OpEdge>>, rm: seq<Op>): Pruned<P>
  {
    Pruned(JGraph(Filter(graph.nodes, (n: Op) => n !in rm), Filter(graph.edges, (e: OpEdge) => !Touches(e, rm))),
           ext,
           map k | k in pos && k !in rm :: pos[k],
           seq(|taskGroups|, j requires 0 <= j < |taskGroups| =>
             seq(|taskGroups[j]|, i requires 0 <= i < |taskGroups[j]| => PruneTaskGroup(taskGroups[j][i], rm))),
           seq(|edgeGroups|, i requires 0 <= i < |edgeGroups| => PruneEdgeGroup(edgeGroups[i], rm)))
  }

  /** n is a node of the graph that its job's window on its machine excludes. */
  predicate Removed(ext: seq<seq<ExtTask>>, graph: JGraph, n: Op) {
    n in graph.nodes && Doomed(ext, n)
  }

  /** What the pruned outputs should be: every removed node is gone from the
      graph (with its edges), from the positions and from every task group, and
      every edge group keeps just the edges between remaining nodes; nothing else changes. */
  ghost predicate PrunedAs<P>(res: Pruned<P>, ext: seq<seq<ExtTask>>, graph: JGraph, pos: map<Op, P>,
                        taskGroups: seq<seq<seq<Op>>>, edgeGroups: seq<seq<OpEdge>>)
  {
    && res.ext == ext
    && res.graph.nodes == Filter(graph.nodes, (n: Op) => !Removed(ext, graph, n))
    && res.graph.edges == Filter(graph.edges, (e: OpEdge) => !Removed(ext, graph, e.0) && !Removed(ext, graph, e.1))
    && (forall n :: n in res.pos <==> n in pos && !Removed(ext, graph, n))
    && (forall n | n in res.pos :: n in pos && res.pos[n] == pos[n])
    && |res.taskGroups| == |taskGroups|
    && (forall j | 0 <= j < |taskGroups| :: |res.taskGroups[j]| == |taskGroups[j]|)
    && (forall j, i | 0 <= j < |taskGroups| && 0 <= i < |taskGroups[j]| ::
          res.taskGroups[j][i] == Filter(taskGroups[j][i], (n: Op) => !Removed(ext, graph, n)))
    && |res.edgeGroups| == |edgeGroups|
    && (forall i | 0 <= i < |edgeGroups| && Distinct(edgeGroups[i]) ::
          res.edgeGroups[i] == Filter(edgeGroups[i], (e: OpEdge) => !Removed(ext, graph, e.0) && !Removed(ext, graph, e.1)))
  }

  lemma RemoveListedGraph(ext: seq<seq<ExtTask>>, graph: JGraph, rm: seq<Op>)
    requires forall n :: n in rm <==> Removed(ext, graph, n)
    ensures Filter(graph.nodes, (n: Op) => n !in rm) == Filter(graph.nodes, (n: Op) => !Removed(ext, graph, n))
    ensures Filter(graph.edges, (e: OpEdge) => !Touches(e, rm))
            == Filter(graph.edges, (e: OpEdge) => !Removed(ext, graph, e.0) && !Removed(ext, graph, e.1))
  {
    FilterCongruent(graph.nodes, (n: Op) => n !in rm, (n: Op) => !Removed(ext, graph, n));
    FilterCongruent(graph.edges, (e: OpEdge) => !Touches(e, rm),
                    (e: OpEdge) => !Removed(ext, graph, e.0) && !Removed(ext, graph, e.1));
  }

  lemma RemoveListedGroups(ext: seq<seq<ExtTask>>, graph: JGraph, rm: seq<Op>,
                           taskGroups: seq<seq<seq<Op>>>, edgeGroups: seq<seq<OpEdge>>)
    requires forall n :: n in rm <==> Removed(ext, graph, n)
    ensures forall j, i | 0 <= j < |taskGroups| && 0 <= i < |taskGroups[j]| ::
              PruneTaskGroup(taskGroups[j][i], rm) == Filter(taskGroups[j][i], (n: Op) => !Removed(ext, graph, n))
    ensures forall i | 0 <= i < |edgeGroups| && Distinct(edgeGroups[i]) ::
              PruneEdgeGroup(edgeGroups[i], rm)
              == Filter(edgeGroups[i], (e: OpEdge) => !Removed(ext, graph, e.0) && !Removed(ext, graph, e.1))
  {
    forall j, i | 0 <= j < |taskGroups| && 0 <= i < |taskGroups[j]| {
      FilterCongruent(taskGroups[j][i], (n: Op) => n !in rm, (n: Op) => !Removed(ext, graph, n));
    }
    forall i | 0 <= i < |edgeGroups| && Distinct(edgeGroups[i]) {
      FilterCongruent(edgeGroups[i], (e: OpEdge) => !Touches(e, rm),
                      (e: OpEdge) => !Removed(ext, graph, e.0) && !Removed(ext, graph, e.1));
    }
  }

  /** Removing the listed nodes, when the list holds exactly the removed nodes, gives the intended outputs. */
  lemma RemoveListedMeets<P>(graph: JGraph, ext: seq<seq<ExtTask>>, pos: map<Op, P>,
                             taskGroups: seq<seq<seq<Op>>>, edgeGroups: seq<seq<OpEdge>>, rm: seq<Op>)
    requires forall n :: n in rm <==> Removed(ext, graph, n)
    ensures PrunedAs(RemoveListed(graph, ext, pos, taskGroups, edgeGroups, rm), ext, graph, pos, taskGroups, edgeGroups)
  {
    RemoveListedGraph(ext, graph, rm);
    RemoveListedGroups(ext, graph, rm, taskGroups, edgeGroups);
  }

  /** simple_pruning. None when a node is listed twice in rm_nodes: there the second
      `remove_node` raises. Otherwise the outputs are as PrunedAs describes: a node
      goes exactly when a task of its job on its machine excludes its time step.
      The inputs are values, so the caller's copies stay as they were. */
  function SimplePruning<P>(inst: Instance, graph: JGraph, pos: map<Op, P>,
                            taskGroups: seq<seq<seq<Op>>>, edgeGroups: seq<seq<OpEdge>>): (r: Option<Pruned<P>>)
    requires PruneIndexable(inst) && IsGraph(graph)
    ensures r.None? <==> exists n | n in graph.nodes :: DoomedTwice(ExtendInstance(inst), n)
    ensures r.Some? ==> PrunedAs(r.value, ExtendInstance(inst), graph, pos, taskGroups, edgeGroups)
  {
    var ext := ExtendInstance(inst);
    var rm := RmNodes(ext, graph.nodes);
    RmNodesDistinct(ext, graph.nodes);
    if !Distinct(rm) then None
    else
      RemoveListedMeets(graph, ext, pos, taskGroups, edgeGroups, rm);
      Some(RemoveListed(graph, ext, pos, taskGroups, edgeGroups, rm))
  }

  /** No task excludes a node twice when no job visits a machine twice: then simple_pruning succeeds. */
  lemma PruningSucceeds<P>(inst: Instance, graph: JGraph, pos: map<Op, P>,
                           taskGroups: seq<seq<seq<Op>>>, edgeGroups: seq<seq<OpEdge>>)
    requires PruneIndexable(inst) && IsGraph(graph)
    requires forall job, k1, k2 | 0 <= job < NJobs(inst) && 0 <= k1 < k2 < |inst.jobs[job]| ::
               inst.jobs[job][k1].machine != inst.jobs[job][k2].machine
    ensures SimplePruning(inst, graph, pos, taskGroups, edgeGroups).Some?
  {
    var ext := ExtendInstance(inst);
    forall n | n in graph.nodes ensures !DoomedTwice(ext, n) {
      forall k1, k2 | 0 <= n.job < |ext| && 0 <= k1 < k2 < |ext[n.job]|
        ensures ext[n.job][k1].machine != ext[n.job][k2].machine
      {
        assert ext[n.job][k1].machine == inst.jobs[n.job][k1].machine;
        assert ext[n.job][k2].machine == inst.jobs[n.job][k2].machine;
      }
    }
  }

  /** An edge group that repeats an edge keeps its later copy. */
  lemma RepeatedEdgeSurvives()
    ensures var u, v := Op(0, 0, 0), Op(0, 0, 1);
            PruneEdgeGroup([(u, v), (u, v)], [u]) == [(u, v)]
  {
    var u, v := Op(0, 0, 0), Op(0, 0, 1);
    var group := [(u, v), (u, v)];
    var p := (e: OpEdge) => Touches(e, [u]);
    assert p((u, v));
    assert group[1..] == [(u, v)] && group[1..][1..] == [];
    assert CollectOnce(group[1..][1..], p, [(u, v)]) == [(u, v)];
    assert CollectOnce(group[1..], p, [(u, v)]) == [(u, v)];
    assert [] + [group[0]] == [(u, v)];
    assert CollectOnce(group, p, []) == [(u, v)];
    assert RemoveFirst(group, (u, v)) == [(u, v)];
    assert RemoveEach(group, [(u, v)]) == RemoveEach([(u, v)], []);
  }
}

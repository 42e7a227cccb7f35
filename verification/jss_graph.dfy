/** The job-shop conflict graph of jss_graph.py: one node per (machine, job, time
    step), the task groups used for drawing, and the three edge families (same
    operation, consecutive operations, overlap on a machine). */
module JssGraph {
  import opened Seqs

  /** One entry of a job's task list: the machine it runs on and its duration. */
  datatype Task = Task(machine: int, duration: int)

  /** The instance dictionary: jobs 0 .. n_jobs - 1 and the 'timespan' entry. */
  datatype Instance = Instance(jobs: seq<seq<Task>>, timespan: int)

  /** The node (m, j, t): job j's operation on machine m starting at time step t. */
  datatype Op = Op(machine: int, job: int, time: int)

  type OpEdge = (Op, Op)

  /** The number of machines is read off the task list of job 0, so job 0 must exist. */
  predicate HasFirstJob(inst: Instance) {
    |inst.jobs| >= 1
  }

  function NMachines(inst: Instance): nat
    requires HasFirstJob(inst)
  {
    |inst.jobs[0]|
  }

  function NJobs(inst: Instance): nat {
    |inst.jobs|
  }

  function Min(a: int, b: int): int {
    if a <= b then a else b
  }

  function Abs(a: int): nat {
    if a < 0 then -a else a
  }

  /** (m, j, t) is one of the nodes build_graph creates. */
  predicate IsNode(inst: Instance, op: Op)
    requires HasFirstJob(inst)
  {
    0 <= op.machine < NMachines(inst) && 0 <= op.job < NJobs(inst) && 0 <= op.time < inst.timespan
  }

  /** job j has a task on machine m. */
  predicate Uses(tasks: seq<Task>, m: int) {
    exists i :: 0 <= i < |tasks| && tasks[i].machine == m
  }

  // ---------------------------------------------------------------------------
  // Nodes and task groups (build_graph)

  /** The nodes of machine m and job j, one per time step, by increasing time. */
  function Timeline(m: int, j: int, timespan: int): (r: seq<Op>)
    ensures |r| == if timespan < 0 then 0 else timespan
    ensures forall t | 0 <= t < |r| :: r[t] == Op(m, j, t)
    ensures forall op :: op in r <==> op.machine == m && op.job == j && 0 <= op.time < timespan
  {
    var r := seq(if timespan < 0 then 0 else timespan, t => Op(m, j, t));
    assert forall op: Op | op.machine == m && op.job == j && 0 <= op.time < timespan :: r[op.time] == op;
    r
  }

  /** The timelines of machines lo .. hi - 1 for job j, one after the other. */
  function Timelines(lo: int, hi: int, j: int, timespan: int): (r: seq<Op>)
    ensures forall op :: op in r <==> lo <= op.machine < hi && op.job == j && 0 <= op.time < timespan
    ensures Distinct(r)
    decreases hi - lo
  {
    if lo >= hi then []
    else
      var here, rest := Timeline(lo, j, timespan), Timelines(lo + 1, hi, j, timespan);
      assert Distinct(here) by {
        forall a, b | 0 <= a < b < |here| ensures here[a] != here[b] {
          assert here[a].time == a && here[b].time == b;
        }
      }
      DistinctConcat(here, rest);
      here + rest
  }

  /** job_groups[j]: machine by machine, the timeline of job j. */
  function JobGroup(inst: Instance, j: int): (r: seq<Op>)
    requires HasFirstJob(inst)
    ensures forall op :: op in r <==> 0 <= op.machine < NMachines(inst) && op.job == j && 0 <= op.time < inst.timespan
    ensures Distinct(r)
  {
    Timelines(0, NMachines(inst), j, inst.timespan)
  }

  /** The nodes of build_graph, in insertion order: exactly the triples (m, j, t)
      with m < n_machines, j < n_jobs and t < timespan, each once. */
  function Nodes(inst: Instance): (r: seq<Op>)
    requires HasFirstJob(inst)
    ensures forall op :: op in r <==> IsNode(inst, op)
    ensures Distinct(r)
  {
    var f := j => JobGroup(inst, j);
    FlatRangeKeyed(0, NJobs(inst), f, (op: Op) => op.job);
    FlatRange(0, NJobs(inst), f)
  }

  lemma FilterTimeline(m: int, j: int, timespan: int, mi: int)
    ensures Filter(Timeline(m, j, timespan), (n: Op) => n.machine == mi) == if m == mi then Timeline(m, j, timespan) else []
  {
    if m == mi {
      FilterKeepsAll(Timeline(m, j, timespan), (n: Op) => n.machine == mi);
    } else {
      FilterDropsAll(Timeline(m, j, timespan), (n: Op) => n.machine == mi);
    }
  }

  lemma {:induction false} FilterTimelines(lo: int, hi: int, j: int, timespan: int, mi: int)
    ensures Filter(Timelines(lo, hi, j, timespan), (n: Op) => n.machine == mi)
            == if lo <= mi < hi then Timeline(mi, j, timespan) else []
    decreases hi - lo
  {
    if lo < hi {
      var p := (n: Op) => n.machine == mi;
      var here, rest := Timeline(lo, j, timespan), Timelines(lo + 1, hi, j, timespan);
      assert Timelines(lo, hi, j, timespan) == here + rest;
      FilterConcat(here, rest, p);
      FilterTimelines(lo + 1, hi, j, timespan, mi);
      FilterTimeline(lo, j, timespan, mi);
      if lo == mi {
        assert Filter(rest, p) == [];
        assert Filter(here, p) + [] == Filter(here, p);
      } else {
        assert Filter(here, p) == [];
        assert [] + Filter(rest, p) == Filter(rest, p);
      }
    }
  }

  /** task_groups[job][i]: the nodes of job_groups[job] on the machine of the job's
      i-th task. That is the whole timeline of that machine, by increasing time,
      and nothing when the machine number is out of range. */
  function TaskGroup(inst: Instance, job: int, i: int): (r: seq<Op>)
    requires HasFirstJob(inst) && 0 <= job < NJobs(inst) && 0 <= i < |inst.jobs[job]|
    ensures var mi := inst.jobs[job][i].machine;
            r == if 0 <= mi < NMachines(inst) then Timeline(mi, job, inst.timespan) else []
  {
    var mi := inst.jobs[job][i].machine;
    FilterTimelines(0, NMachines(inst), job, inst.timespan, mi);
    Filter(JobGroup(inst, job), (n: Op) => n.machine == mi)
  }

  /** The task_groups dictionary returned by build_graph: one list per job, one group per task. */
  function TaskGroups(inst: Instance): (tg: seq<seq<seq<Op>>>)
    requires HasFirstJob(inst)
    ensures |tg| == NJobs(inst)
    ensures forall job | 0 <= job < |tg| :: |tg[job]| == |inst.jobs[job]|
    ensures forall job, i | 0 <= job < |tg| && 0 <= i < |tg[job]| ::
              forall n | n in tg[job][i] :: IsNode(inst, n) && n.job == job && n.machine == inst.jobs[job][i].machine
  {
    seq(NJobs(inst), job requires 0 <= job < NJobs(inst) =>
      seq(|inst.jobs[job]|, i requires 0 <= i < |inst.jobs[job]| => TaskGroup(inst, job, i)))
  }

  // ---------------------------------------------------------------------------
  // Same-operation edges (soo_edges)

  /** e joins two time steps t < k of one operation (m, j). */
  predicate SameOperation(inst: Instance, e: OpEdge)
    requires HasFirstJob(inst)
  {
    IsNode(inst, e.0) && e.1 == Op(e.0.machine, e.0.job, e.1.time) && e.0.time < e.1.time < inst.timespan
  }

  /** One iteration of the innermost loop: the edge from step t to step k when its
      kind (curved: |t - k| > 1) is the one asked for. */
  function SooStep(m: int, j: int, t: int, k: int, curved: bool): (r: seq<OpEdge>)
    requires t < k
    ensures forall e :: e in r <==> e == (Op(m, j, t), Op(m, j, k)) && (k > t + 1) == curved
    ensures Distinct(r)
  {
    if (Abs(t - k) > 1) == curved then [(Op(m, j, t), Op(m, j, k))] else []
  }

  /** The innermost loop over k for fixed (m, j, t), keeping the curved or the straight edges. */
  function SooFrom(m: int, j: int, t: int, timespan: int, curved: bool): (r: seq<OpEdge>)
    ensures forall e :: e in r <==>
              e.0 == Op(m, j, t) && e.1 == Op(m, j, e.1.time) && t < e.1.time < timespan && (e.1.time > t + 1) == curved
    ensures Distinct(r)
  {
    var f := k requires t < k => SooStep(m, j, t, k, curved);
    FlatRangeKeyed(t + 1, timespan, f, (e: OpEdge) => e.1.time);
    FlatRange(t + 1, timespan, f)
  }

  /** e joins time steps t < k of one operation, and is curved (k > t + 1) or straight as asked. */
  predicate SooShape(e: OpEdge, timespan: int, curved: bool) {
    && 0 <= e.0.time && e.1 == Op(e.0.machine, e.0.job, e.1.time) && e.0.time < e.1.time < timespan
    && (e.1.time > e.0.time + 1) == curved
  }

  function SooOperation(m: int, j: int, timespan: int, curved: bool): (r: seq<OpEdge>)
    ensures forall e :: e in r <==> e.0.machine == m && e.0.job == j && SooShape(e, timespan, curved)
    ensures Distinct(r)
  {
    var f := t => SooFrom(m, j, t, timespan, curved);
    FlatRangeKeyed(0, timespan - 1, f, (e: OpEdge) => e.0.time);
    FlatRange(0, timespan - 1, f)
  }

  function SooMachine(inst: Instance, m: int, curved: bool): (r: seq<OpEdge>)
    ensures forall e :: e in r <==> e.0.machine == m && 0 <= e.0.job < NJobs(inst) && SooShape(e, inst.timespan, curved)
    ensures Distinct(r)
  {
    var f := j => SooOperation(m, j, inst.timespan, curved);
    FlatRangeKeyed(0, NJobs(inst), f, (e: OpEdge) => e.0.job);
    FlatRange(0, NJobs(inst), f)
  }

  function SooList(inst: Instance, curved: bool): (r: seq<OpEdge>)
    requires HasFirstJob(inst)
    ensures forall e :: e in r <==>
              0 <= e.0.machine < NMachines(inst) && 0 <= e.0.job < NJobs(inst) && SooShape(e, inst.timespan, curved)
    ensures Distinct(r)
  {
    var f := m => SooMachine(inst, m, curved);
    FlatRangeKeyed(0, NMachines(inst), f, (e: OpEdge) => e.0.machine);
    FlatRange(0, NMachines(inst), f)
  }

  /** soo_edges: (curved_edges, straight_edges). Both join time steps t < k of one
      operation; an edge is straight exactly when k = t + 1. Together the two lists
      hold every such pair once. */
  function SooEdges(inst: Instance): (r: (seq<OpEdge>, seq<OpEdge>))
    requires HasFirstJob(inst)
    ensures forall e :: e in r.0 <==> SameOperation(inst, e) && e.1.time > e.0.time + 1
    ensures forall e :: e in r.1 <==> SameOperation(inst, e) && e.1.time == e.0.time + 1
    ensures forall e :: SameOperation(inst, e) <==> (e in r.0 || e in r.1)
    ensures forall e | e in r.0 :: e !in r.1
    ensures Distinct(r.0) && Distinct(r.1)
  {
    var r := (SooList(inst, true), SooList(inst, false));
    forall e ensures (e in r.0 <==> SameOperation(inst, e) && e.1.time > e.0.time + 1)
                  && (e in r.1 <==> SameOperation(inst, e) && e.1.time == e.0.time + 1)
    {
      SooShapeSame(inst, e);
    }
    r
  }

  /** An edge of either soo list joins two steps of one operation of the instance. */
  lemma SooShapeSame(inst: Instance, e: OpEdge)
    requires HasFirstJob(inst)
    ensures 0 <= e.0.machine < NMachines(inst) && 0 <= e.0.job < NJobs(inst) && SooShape(e, inst.timespan, true)
            <==> SameOperation(inst, e) && e.1.time > e.0.time + 1
    ensures 0 <= e.0.machine < NMachines(inst) && 0 <= e.0.job < NJobs(inst) && SooShape(e, inst.timespan, false)
            <==> SameOperation(inst, e) && e.1.time == e.0.time + 1
  {
  }

  // ---------------------------------------------------------------------------
  // Consecutive-operation edges (oo_edges)

  /** The task list entries oo_edges reads exist: task i for every i < n_machines - 1,
      and task i + 1 whenever the innermost loop over t_p runs at least once. */
  predicate OoIndexable(inst: Instance) {
    && HasFirstJob(inst)
    && forall job | 0 <= job < NJobs(inst) ::
         && NMachines(inst) - 1 <= |inst.jobs[job]|
         && forall i | 0 <= i < NMachines(inst) - 1 ::
              inst.timespan > 0 && inst.timespan - 1 + inst.jobs[job][i].duration > 0 ==> i + 1 < |inst.jobs[job]|
  }

  /** e links task i of job e.0.job, started at e.0.time, to task i + 1 of the same
      job started at a step before min(e.0.time + p_i, timespan). */
  predicate OoLink(inst: Instance, e: OpEdge, i: int)
    requires HasFirstJob(inst)
  {
    var job := e.0.job;
    && 0 <= job < NJobs(inst) && 0 <= i < NMachines(inst) - 1 && i + 1 < |inst.jobs[job]|
    && e.0 == Op(inst.jobs[job][i].machine, job, e.0.time) && 0 <= e.0.time < inst.timespan
    && e.1 == Op(inst.jobs[job][i + 1].machine, job, e.1.time)
    && 0 <= e.1.time < Min(e.0.time + inst.jobs[job][i].duration, inst.timespan)
  }

  function OoFrom(inst: Instance, job: int, i: int, t: int): (r: seq<OpEdge>)
    requires OoIndexable(inst) && 0 <= job < NJobs(inst) && 0 <= i < NMachines(inst) - 1 && 0 <= t < inst.timespan
    ensures forall e :: e in r <==> e.0.time == t && OoLink(inst, e, i) && e.0.job == job
  {
    var task := inst.jobs[job][i];
    var f := tp requires i + 1 < |inst.jobs[job]| => [(Op(task.machine, job, t), Op(inst.jobs[job][i + 1].machine, job, tp))];
    assert forall e: OpEdge | e.0.time == t && OoLink(inst, e, i) && e.0.job == job :: e in f(e.1.time);
    FlatRange(0, Min(t + task.duration, inst.timespan), f)
  }

  function OoTask(inst: Instance, job: int, i: int): (r: seq<OpEdge>)
    requires OoIndexable(inst) && 0 <= job < NJobs(inst) && 0 <= i < NMachines(inst) - 1
    ensures forall e :: e in r <==> OoLink(inst, e, i) && e.0.job == job
  {
    OoTimes(inst, job, i, 0)
  }

  /** The edges of task i of one job started at steps lo, lo + 1, ..., timespan - 1. */
  function OoTimes(inst: Instance, job: int, i: int, lo: nat): (r: seq<OpEdge>)
    requires OoIndexable(inst) && 0 <= job < NJobs(inst) && 0 <= i < NMachines(inst) - 1
    ensures forall e :: e in r <==> lo <= e.0.time && OoLink(inst, e, i) && e.0.job == job
    decreases inst.timespan - lo
  {
    if lo >= inst.timespan then []
    else
      var head := OoFrom(inst, job, i, lo);
      var rest := OoTimes(inst, job, i, lo + 1);
      assert forall e: OpEdge | lo <= e.0.time && OoLink(inst, e, i) && e.0.job == job :: e in head + rest by {
        forall e: OpEdge | lo <= e.0.time && OoLink(inst, e, i) && e.0.job == job ensures e in head + rest {
          if e.0.time == lo { assert e in head; } else { assert e in rest; }
        }
      }
      head + rest
  }

  /** The edges of tasks lo, lo + 1, ..., n_machines - 2 of one job. */
  function OoTasks(inst: Instance, job: int, lo: nat): (r: seq<OpEdge>)
    requires OoIndexable(inst) && 0 <= job < NJobs(inst)
    ensures forall e :: e in r <==> e.0.job == job && exists i :: lo <= i && OoLink(inst, e, i)
    decreases NMachines(inst) - lo
  {
    if lo >= NMachines(inst) - 1 then []
    else
      var head := OoTask(inst, job, lo);
      var rest := OoTasks(inst, job, lo + 1);
      assert forall e: OpEdge, i | e.0.job == job && lo <= i && OoLink(inst, e, i) :: e in head + rest by {
        forall e: OpEdge, i | e.0.job == job && lo <= i && OoLink(inst, e, i) ensures e in head + rest {
          if i == lo { assert e in head; } else { assert e in rest; }
        }
      }
      head + rest
  }

  function OoJob(inst: Instance, job: int): (r: seq<OpEdge>)
    requires OoIndexable(inst) && 0 <= job < NJobs(inst)
    ensures forall e :: e in r <==> e.0.job == job && exists i :: OoLink(inst, e, i)
  {
    var r := OoTasks(inst, job, 0);
    assert forall e: OpEdge, i | OoLink(inst, e, i) :: 0 <= i;
    r
  }

  /** oo_edges: every edge links some task i < n_machines - 1 of a job to its task
      i + 1, and every such link within the time bound is present. */
  function OoEdges(inst: Instance): (r: seq<OpEdge>)
    requires OoIndexable(inst)
    ensures forall e :: e in r <==> exists i :: OoLink(inst, e, i)
  {
    var f := job requires 0 <= job < NJobs(inst) => OoJob(inst, job);
    FlatRangeKeyed(0, NJobs(inst), f, (e: OpEdge) => e.0.job);
    FlatRange(0, NJobs(inst), f)
  }

  // ---------------------------------------------------------------------------
  // Same-machine overlap edges (I_set, A_set, otm_edges)

  /** Two different jobs that both have a task on machine m. */
  predicate Conflict(inst: Instance, m: int, j1: int, j2: int) {
    0 <= j1 < NJobs(inst) && 0 <= j2 < NJobs(inst) && j1 != j2 && Uses(inst.jobs[j1], m) && Uses(inst.jobs[j2], m)
  }

  /** I_m after the first n jobs: the pairs (m, job) of jobs with a task on m. */
  function Users(inst: Instance, m: int, n: nat): (r: set<(int, int)>)
    requires n <= NJobs(inst)
    ensures forall u :: u in r <==> u.0 == m && 0 <= u.1 < n && Uses(inst.jobs[u.1], m)
  {
    if n == 0 then {}
    else Users(inst, m, n - 1) + (if Uses(inst.jobs[n - 1], m) then {(m, n - 1)} else {})
  }

  /** I_set(m): the ordered pairs of different jobs that share machine m. It is
      irreflexive and, since nothing drops one orientation, symmetric. */
  function ISet(inst: Instance, m: int): (r: set<((int, int), (int, int))>)
    requires HasFirstJob(inst)
    ensures forall e :: e in r <==> e.0 == (m, e.0.1) && e.1 == (m, e.1.1) && Conflict(inst, m, e.0.1, e.1.1)
    ensures forall e | e in r :: e.0 != e.1 && (e.1, e.0) in r
  {
    var im := Users(inst, m, NJobs(inst));
    var r := set a, b | a in im && b in im && a != b :: (a, b);
    assert forall e: ((int, int), (int, int)) | e.0 == (m, e.0.1) && e.1 == (m, e.1.1) && Conflict(inst, m, e.0.1, e.1.1) :: e.0 in im && e.1 in im;
    r
  }

  /** Index of the last task of the list on machine m. */
  function LastOn(tasks: seq<Task>, m: int): (i: nat)
    requires Uses(tasks, m)
    ensures i < |tasks| && tasks[i].machine == m
    ensures forall i' | i < i' < |tasks| :: tasks[i'].machine != m
  {
    var last := |tasks| - 1;
    if tasks[last].machine == m then last
    else
      assert Uses(tasks[..last], m) by {
        var i :| 0 <= i < |tasks| && tasks[i].machine == m;
        assert tasks[..last][i] == tasks[i];
      }
      LastOn(tasks[..last], m)
  }

  /** The p A_set uses for a job on machine m: the duration of the job's last task on m. */
  function Duration(inst: Instance, m: int, j: int): int
    requires 0 <= j < NJobs(inst) && Uses(inst.jobs[j], m)
  {
    inst.jobs[j][LastOn(inst.jobs[j], m)].duration
  }

  /** (m, j1, t) and (m, j2, t_p) for conflicting jobs, with t_p in [t, t + p) and both inside the horizon. */
  predicate Overlap(inst: Instance, m: int, x: OpEdge) {
    && x.0.machine == m && x.1.machine == m && Conflict(inst, m, x.0.job, x.1.job)
    && 0 <= x.0.time && x.1.time < inst.timespan
    && 0 <= x.1.time - x.0.time < Duration(inst, m, x.0.job)
  }

  /** A_set(m): exactly the overlap pairs on m. p is that of the first job of the pair. */
  function ASet(inst: Instance, m: int): (r: set<OpEdge>)
    requires HasFirstJob(inst)
    ensures forall x :: x in r <==> Overlap(inst, m, x)
  {
    var im := ISet(inst, m);
    var r := set e, t, tp | e in im && 0 <= t < inst.timespan && 0 <= tp < inst.timespan
                            && 0 <= tp - t < Duration(inst, m, e.0.1)
                          :: (Op(e.0.0, e.0.1, t), Op(e.1.0, e.1.1, tp));
    ASetComplete(inst, m, r);
    r
  }

  lemma ASetComplete(inst: Instance, m: int, r: set<OpEdge>)
    requires HasFirstJob(inst)
    requires r == set e, t, tp | e in ISet(inst, m) && 0 <= t < inst.timespan && 0 <= tp < inst.timespan
                                 && 0 <= tp - t < Duration(inst, m, e.0.1)
                               :: (Op(e.0.0, e.0.1, t), Op(e.1.0, e.1.1, tp))
    ensures forall x | Overlap(inst, m, x) :: x in r
  {
    forall x | Overlap(inst, m, x) ensures x in r {
      var e := ((m, x.0.job), (m, x.1.job));
      assert e in ISet(inst, m);
      assert x == (Op(e.0.0, e.0.1, x.0.time), Op(e.1.0, e.1.1, x.1.time));
    }
  }

  /** orders[m] lists A_set(m) in its iteration order: each element once. */
  ghost predicate Enumerates(s: seq<OpEdge>, r: set<OpEdge>) {
    Distinct(s) && forall x :: x in s <==> x in r
  }

  lemma OrdersOnMachine(inst: Instance, orders: seq<seq<OpEdge>>)
    requires HasFirstJob(inst) && |orders| == NMachines(inst)
    requires forall m | 0 <= m < NMachines(inst) :: Enumerates(orders[m], ASet(inst, m))
    ensures forall m, x | 0 <= m < NMachines(inst) && x in orders[m] :: x.0.machine == m
    ensures forall m | 0 <= m < NMachines(inst) :: Distinct(orders[m])
    ensures forall x: OpEdge | 0 <= x.0.machine < NMachines(inst) && x in ASet(inst, x.0.machine) :: x in orders[x.0.machine]
  {
    forall m, x | 0 <= m < NMachines(inst) && x in orders[m] ensures x.0.machine == m {
      assert Enumerates(orders[m], ASet(inst, m));
      assert x in ASet(inst, m);
    }
    forall x: OpEdge | 0 <= x.0.machine < NMachines(inst) && x in ASet(inst, x.0.machine) ensures x in orders[x.0.machine] {
      assert Enumerates(orders[x.0.machine], ASet(inst, x.0.machine));
    }
  }

  /** otm_edges: the elements of A_set(m) for every machine m, machine by machine,
      each listed once: the sets of different machines never meet. */
  function OtmEdges(inst: Instance, orders: seq<seq<OpEdge>>): (r: seq<OpEdge>)
    requires HasFirstJob(inst) && |orders| == NMachines(inst)
    requires forall m | 0 <= m < NMachines(inst) :: Enumerates(orders[m], ASet(inst, m))
    ensures forall x :: x in r <==> 0 <= x.0.machine < NMachines(inst) && x in ASet(inst, x.0.machine)
    ensures Distinct(r)
  {
    var f := m requires 0 <= m < |orders| => orders[m];
    OrdersOnMachine(inst, orders);
    assert forall x: OpEdge | 0 <= x.0.machine < NMachines(inst) && x in ASet(inst, x.0.machine) :: x in f(x.0.machine);
    FlatRangeDistinct(0, NMachines(inst), f);
    FlatRange(0, NMachines(inst), f)
  }
}

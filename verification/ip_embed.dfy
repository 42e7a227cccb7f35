/** The 0/1 embedding-model builder of ip_embed.py. Each builder returns the
    variables and constraints it registers with the solver model, as data; the
    solver itself is not modelled. `target` supplies the first component of every
    decision variable x[v, w] and is the graph in which chains are enumerated;
    `graph` supplies the second. */
module IpEmbed {
  import opened Seqs
  import opened Paths
  import opened Constraints

  /** A var_dict key: (target node, graph node). */
  type Key = (Node, Node)

  /** var_dict, as its keys in insertion order (a dict holds each key once); the
      variable stored under key (v, w) is X(v, w). */
  type VarDict = s: seq<Key> | Distinct(s) witness []

  /** The keys (v, w) for w in ws, in order. */
  function Row(v: Node, ws: seq<Node>): (r: seq<Key>)
    ensures |r| == |ws|
    ensures forall i | 0 <= i < |ws| :: r[i] == (v, ws[i])
  {
    seq(|ws|, i requires 0 <= i < |ws| => (v, ws[i]))
  }

  /** The keys (v, w) for every v of vs and, within it, every w of ws, in that nesting order. */
  function Keys(vs: seq<Node>, ws: seq<Node>): (r: seq<Key>)
    ensures |r| == |vs| * |ws|
    ensures forall key :: key in r <==> key.0 in vs && key.1 in ws
    ensures Distinct(vs) && Distinct(ws) ==> Distinct(r)
  {
    if vs == [] then []
    else
      var row, rest := Row(vs[0], ws), Keys(vs[1..], ws);
      MulStep(|vs|, |vs[1..]|, |ws|);
      assert Distinct(vs) && Distinct(ws) ==> Distinct(row + rest) by {
        if Distinct(vs) && Distinct(ws) {
          assert forall key | key in row :: key.0 == vs[0];
          assert vs[0] !in vs[1..];
          DistinctConcat(row, rest);
        }
      }
      row + rest
  }

  /** define_decision_variables: one binary variable per (target node, graph node) pair and no other. */
  function DefineDecisionVariables(target: Graph, graph: Graph): (vd: VarDict)
    ensures forall key :: key in vd <==> key.0 in target.nodes && key.1 in graph.nodes
    ensures |vd| == |target.nodes| * |graph.nodes|
  {
    Keys(target.nodes, graph.nodes)
  }

  /** var_dict holds every (target node, graph node) key, as the builders below index it. */
  predicate Covers(vd: VarDict, target: Graph, graph: Graph) {
    forall v, w | v in target.nodes && w in graph.nodes :: (v, w) in vd
  }

  /** A fresh auxiliary variable together with the constraint that defines it. */
  datatype Aux = Aux(v: Var, definition: Constraint)

  /** define_delta_p_variable: delta == x[x1, y1] * x[x2, y2]. */
  function DefineDeltaP(x1: Node, x2: Node, y1: Node, y2: Node, vd: VarDict): (d: Aux)
    requires (x1, y1) in vd && (x2, y2) in vd
    ensures d.v == DeltaP(x1, x2, y1, y2)
    ensures forall a: Assignment :: Holds(a, d.definition) <==> (a(d.v) <==> a(X(x1, y1)) && a(X(x2, y2)))
  {
    Aux(DeltaP(x1, x2, y1, y2), Product(DeltaP(x1, x2, y1, y2), [X(x1, y1), X(x2, y2)]))
  }

  /** define_delta_o_variable: the same product with the graph endpoints swapped,
      delta == x[x1, y2] * x[x2, y1]. */
  function DefineDeltaO(x1: Node, x2: Node, y1: Node, y2: Node, vd: VarDict): (d: Aux)
    requires (x1, y2) in vd && (x2, y1) in vd
    ensures d.v == DeltaO(x1, x2, y1, y2)
    ensures forall a: Assignment :: Holds(a, d.definition) <==> (a(d.v) <==> a(X(x1, y2)) && a(X(x2, y1)))
  {
    Aux(DeltaO(x1, x2, y1, y2), Product(DeltaO(x1, x2, y1, y2), [X(x1, y2), X(x2, y1)]))
  }

  /** The interior of a chain: the nodes at positions 1 .. |c| - 2, without its two ends. */
  function Interior(c: seq<Node>): (r: seq<Node>)
    ensures forall n | n in r :: n in c
    ensures |c| <= 2 ==> r == []
  {
    if |c| < 2 then [] else c[1..|c| - 1]
  }

  /** Every node of ns lies in the fiber of j. */
  predicate InFiber(a: Assignment, ns: seq<Node>, j: Node) {
    forall n | n in ns :: a(X(n, j))
  }

  /** The chains that `define_gamma_variables` does not skip. */
  function NonEmpty(chains: seq<seq<Node>>): (r: seq<seq<Node>>)
    ensures |r| <= |chains|
    ensures forall c :: c in r <==> c in chains && |c| > 0
  {
    Filter(chains, IsNonEmpty)
  }

  predicate IsNonEmpty(c: seq<Node>) {
    |c| > 0
  }

  function GammaFactors(c: seq<Node>, j: Node): (fs: seq<Var>)
    ensures forall v :: v in fs <==> exists n :: n in Interior(c) && v == X(n, j)
  {
    var ns := Interior(c);
    var fs := seq(|ns|, i requires 0 <= i < |ns| => X(ns[i], j));
    assert forall n | n in ns :: X(n, j) in fs by {
      forall n | n in ns ensures X(n, j) in fs {
        var i :| 0 <= i < |ns| && ns[i] == n;
        assert fs[i] == X(n, j);
      }
    }
    fs
  }

  function DefineGamma(c: seq<Node>, j: Node): (g: Aux)
    ensures g.v == Gamma(c, j)
    ensures forall a: Assignment :: Holds(a, g.definition) <==> (a(g.v) <==> InFiber(a, Interior(c), j))
  {
    Aux(Gamma(c, j), Product(Gamma(c, j), GammaFactors(c, j)))
  }

  /** define_gamma_variables: one gamma per non-empty chain, defined as the AND of
      x[n, j] over the chain's interior nodes n (so 1 for a chain of two nodes). */
  function DefineGammaVariables(chains: seq<seq<Node>>, j: Node, vd: VarDict): (gs: seq<Aux>)
    requires forall c, n | c in chains && n in Interior(c) :: (n, j) in vd
    ensures |gs| == |NonEmpty(chains)|
    ensures forall i | 0 <= i < |gs| :: gs[i].v == Gamma(NonEmpty(chains)[i], j)
    ensures forall i, a: Assignment | 0 <= i < |gs| ::
              Holds(a, gs[i].definition) <==> (a(gs[i].v) <==> InFiber(a, Interior(NonEmpty(chains)[i]), j))
  {
    var cs := NonEmpty(chains);
    seq(|cs|, i requires 0 <= i < |cs| => DefineGamma(cs[i], j))
  }

  function Definitions(xs: seq<Aux>): (cs: seq<Constraint>)
    ensures |cs| == |xs|
    ensures forall i | 0 <= i < |xs| :: cs[i] == xs[i].definition
  {
    seq(|xs|, i requires 0 <= i < |xs| => xs[i].definition)
  }

  function AuxVars(xs: seq<Aux>): (vs: seq<Var>)
    ensures |vs| == |xs|
    ensures forall i | 0 <= i < |xs| :: vs[i] == xs[i].v
  {
    seq(|xs|, i requires 0 <= i < |xs| => xs[i].v)
  }

  // ---------------------------------------------------------------------------
  // Sums of decision variables

  /** var_dict.values(), in order. */
  function Vars(keys: seq<Key>): (vs: seq<Var>)
    ensures |vs| == |keys|
    ensures forall i | 0 <= i < |keys| :: vs[i] == X(keys[i].0, keys[i].1)
  {
    seq(|keys|, i requires 0 <= i < |keys| => X(keys[i].0, keys[i].1))
  }

  /** x[n, w] for w in ws. */
  function RowVars(n: Node, ws: seq<Node>): (vs: seq<Var>)
    ensures |vs| == |ws|
    ensures forall i | 0 <= i < |ws| :: vs[i] == X(n, ws[i])
  {
    seq(|ws|, i requires 0 <= i < |ws| => X(n, ws[i]))
  }

  /** x[v, n] for v in vs. */
  function ColumnVars(vs: seq<Node>, n: Node): (xs: seq<Var>)
    ensures |xs| == |vs|
    ensures forall i | 0 <= i < |vs| :: xs[i] == X(vs[i], n)
  {
    seq(|vs|, i requires 0 <= i < |vs| => X(vs[i], n))
  }

  /** The keys whose variable is 1. */
  function Chosen(a: Assignment, keys: seq<Key>): set<Key> {
    set key | key in keys && a(X(key.0, key.1))
  }

  /** The graph nodes among ws whose fiber contains target node n. */
  function Assigned(a: Assignment, n: Node, ws: seq<Node>): set<Node> {
    set w | w in ws && a(X(n, w))
  }

  /** The fiber of graph node n: the target nodes among vs mapped to n. */
  function Fiber(a: Assignment, vs: seq<Node>, n: Node): set<Node> {
    set v | v in vs && a(X(v, n))
  }

  lemma {:induction false} SumVars(a: Assignment, keys: seq<Key>)
    requires Distinct(keys)
    ensures Sum(a, Vars(keys)) == |Chosen(a, keys)|
  {
    if keys != [] {
      var k0, rest := keys[0], keys[1..];
      assert Vars(keys)[1..] == Vars(rest);
      assert Distinct(rest);
      SumVars(a, rest);
      ChosenCons(a, keys);
    }
  }

  lemma ChosenCons(a: Assignment, keys: seq<Key>)
    requires keys != [] && keys[0] !in keys[1..]
    ensures var k0 := keys[0];
            |Chosen(a, keys)| == Val(a, X(k0.0, k0.1)) + |Chosen(a, keys[1..])|
  {
    var k0, rest := keys[0], keys[1..];
    assert keys == [k0] + rest;
    if a(X(k0.0, k0.1)) {
      assert Chosen(a, keys) == {k0} + Chosen(a, rest);
    } else {
      assert Chosen(a, keys) == Chosen(a, rest);
    }
  }

  lemma {:induction false} SumRow(a: Assignment, n: Node, ws: seq<Node>)
    requires Distinct(ws)
    ensures Sum(a, RowVars(n, ws)) == |Assigned(a, n, ws)|
  {
    if ws != [] {
      assert RowVars(n, ws)[1..] == RowVars(n, ws[1..]);
      SumRow(a, n, ws[1..]);
      assert ws[0] !in ws[1..];
      if a(X(n, ws[0])) {
        assert Assigned(a, n, ws) == {ws[0]} + Assigned(a, n, ws[1..]);
      } else {
        assert Assigned(a, n, ws) == Assigned(a, n, ws[1..]);
      }
    }
  }

  lemma {:induction false} SumColumn(a: Assignment, vs: seq<Node>, n: Node)
    requires Distinct(vs)
    ensures Sum(a, ColumnVars(vs, n)) == |Fiber(a, vs, n)|
  {
    if vs != [] {
      assert ColumnVars(vs, n)[1..] == ColumnVars(vs[1..], n);
      SumColumn(a, vs[1..], n);
      assert vs[0] !in vs[1..];
      if a(X(vs[0], n)) {
        assert Fiber(a, vs, n) == {vs[0]} + Fiber(a, vs[1..], n);
      } else {
        assert Fiber(a, vs, n) == Fiber(a, vs[1..], n);
      }
    }
  }

  /** A set has at most one element exactly when any two of its elements coincide. */
  lemma AtMostOne<T>(s: set<T>)
    ensures |s| <= 1 <==> forall x, y | x in s && y in s :: x == y
  {
    if |s| > 1 {
      var x :| x in s;
      assert |s - {x}| > 0;
      var y :| y in s - {x};
    } else if s != {} {
      var x :| x in s;
      assert s == {x} by {
        assert |s - {x}| == 0;
      }
    }
  }

  // ---------------------------------------------------------------------------
  // Size and well-definedness

  /** add_size_constraint: the number of decision variables set to 1 lies in [min, max]. */
  function AddSizeConstraint(vd: VarDict, max: int, min: int): (cs: seq<Constraint>)
    ensures forall a: Assignment :: Sat(a, cs) <==> min <= |Chosen(a, vd)| <= max
  {
    var lhs := Vars(vd);
    var cs := [Linear(lhs, 0, Le, max), Linear(lhs, 0, Ge, min)];
    assert forall a: Assignment :: Sat(a, cs) <==> min <= |Chosen(a, vd)| <= max by {
      forall a: Assignment ensures Sat(a, cs) <==> min <= |Chosen(a, vd)| <= max {
        SumVars(a, vd);
        assert Sat(a, cs) <==> Holds(a, cs[0]) && Holds(a, cs[1]);
      }
    }
    cs
  }

  /** Target node n lies in at most one fiber. */
  predicate WellDefinedAt(a: Assignment, n: Node, ws: seq<Node>) {
    forall w1, w2 | w1 in ws && w2 in ws && a(X(n, w1)) && a(X(n, w2)) :: w1 == w2
  }

  lemma WellDefinedRow(a: Assignment, n: Node, ws: seq<Node>)
    requires Distinct(ws)
    ensures Holds(a, Linear(RowVars(n, ws), 0, Le, 1)) <==> WellDefinedAt(a, n, ws)
  {
    var s := Assigned(a, n, ws);
    SumRow(a, n, ws);
    AtMostOne(s);
    assert forall w | w in ws && a(X(n, w)) :: w in s;
  }

  /** add_wd_constraint: one inequality per target node, and together they say
      that the assignment maps each target node to at most one graph node. */
  function AddWdConstraint(target: Graph, graph: Graph, vd: VarDict): (cs: seq<Constraint>)
    requires Covers(vd, target, graph)
    ensures |cs| == |target.nodes|
    ensures forall a: Assignment :: Sat(a, cs) <==> forall n | n in target.nodes :: WellDefinedAt(a, n, graph.nodes)
  {
    var ns := target.nodes;
    var cs := seq(|ns|, i requires 0 <= i < |ns| => Linear(RowVars(ns[i], graph.nodes), 0, Le, 1));
    assert forall a: Assignment :: Sat(a, cs) <==> forall n | n in ns :: WellDefinedAt(a, n, graph.nodes) by {
      forall a: Assignment ensures Sat(a, cs) <==> forall n | n in ns :: WellDefinedAt(a, n, graph.nodes) {
        forall i | 0 <= i < |ns| ensures Holds(a, cs[i]) <==> WellDefinedAt(a, ns[i], graph.nodes) {
          WellDefinedRow(a, ns[i], graph.nodes);
        }
        if Sat(a, cs) {
          forall n | n in ns ensures WellDefinedAt(a, n, graph.nodes) {
            var i :| 0 <= i < |ns| && ns[i] == n;
            assert cs[i] in cs;
          }
        }
      }
    }
    cs
  }

  // ---------------------------------------------------------------------------
  // Fiber sizes

  /** The value `k` holds at the upper fiber bound: the inner loop rebinds `k` to
      each target node in turn, so it is the last target node, or the parameter
      itself when `target` has no nodes and the loop never runs. */
  function ShadowedBound(target: Graph, k: int): int {
    if |target.nodes| == 0 then k else target.nodes[|target.nodes| - 1]
  }

  /** For each n in ns, in order: the fiber of n has at most `bound` and at least one target node. */
  function FiberSizeFamily(target: Graph, ns: seq<Node>, bound: int): (cs: seq<Constraint>)
    ensures |cs| == 2 * |ns|
    ensures forall a: Assignment :: Sat(a, cs) <==>
              forall n | n in ns :: 1 <= |Fiber(a, target.nodes, n)| <= bound
  {
    if ns == [] then []
    else
      var col := ColumnVars(target.nodes, ns[0]);
      var two := [Linear(col, 0, Le, bound), Linear(col, 0, Ge, 1)];
      var tail := FiberSizeFamily(target, ns[1..], bound);
      var cs := two + tail;
      assert forall a: Assignment :: Sat(a, cs) <==>
               forall n | n in ns :: 1 <= |Fiber(a, target.nodes, n)| <= bound by {
        forall a: Assignment ensures Sat(a, cs) <==>
                 forall n | n in ns :: 1 <= |Fiber(a, target.nodes, n)| <= bound {
          SumColumn(a, target.nodes, ns[0]);
          SatAppend(a, two, tail);
          assert Sat(a, two) <==> Holds(a, two[0]) && Holds(a, two[1]);
          assert forall n | n in ns :: n == ns[0] || n in ns[1..];
        }
      }
      cs
  }

  /** add_fs_constraint as written: every graph node has a non-empty fiber, and the
      upper bound is the shadowed loop variable rather than the parameter k. */
  function AddFsConstraint(target: Graph, graph: Graph, vd: VarDict, k: int): (cs: seq<Constraint>)
    requires Covers(vd, target, graph)
    ensures |cs| == 2 * |graph.nodes|
    ensures forall a: Assignment :: Sat(a, cs) <==>
              forall n | n in graph.nodes :: 1 <= |Fiber(a, target.nodes, n)| <= ShadowedBound(target, k)
  {
    FiberSizeFamily(target, graph.nodes, ShadowedBound(target, k))
  }

  /** add_fs_constraint as evidently intended: every fiber has between 1 and k target nodes. */
  function AddFsConstraintIntended(target: Graph, graph: Graph, vd: VarDict, k: int): (cs: seq<Constraint>)
    requires Covers(vd, target, graph)
    ensures |cs| == 2 * |graph.nodes|
    ensures forall a: Assignment :: Sat(a, cs) <==>
              forall n | n in graph.nodes :: 1 <= |Fiber(a, target.nodes, n)| <= k
  {
    FiberSizeFamily(target, graph.nodes, k)
  }

  // ---------------------------------------------------------------------------
  // Unordered pairs of target nodes

  /** `order` lists the nodes once each: the order in which the set of target nodes is iterated. */
  predicate IsOrderOf(order: seq<Node>, nodes: seq<Node>) {
    && Distinct(order)
    && (forall n | n in order :: n in nodes)
    && (forall n | n in nodes :: n in order)
  }

  /** The pairs (x1, x2) the two pair loops visit: each node x1 of `order` is paired,
      in turn, with every node after it, so each unordered pair appears once. */
  function Pairs(order: seq<Node>): (ps: seq<(Node, Node)>)
    ensures forall p | p in ps :: p.0 in order && p.1 in order
    ensures Distinct(order) ==> forall p | p in ps :: p.0 != p.1
  {
    if order == [] then []
    else
      var fan, rest := Row(order[0], order[1..]), Pairs(order[1..]);
      assert forall p | p in fan :: p.0 == order[0] && p.1 in order[1..];
      fan + rest
  }

  // ---------------------------------------------------------------------------
  // Fiber-size refinement

  function RefineIneq(x1: Node, x2: Node, j: Node): Constraint {
    Linear([X(x1, j), X(x2, j)], 0, Le, 1)
  }

  predicate ValidPair(target: Graph, p: (Node, Node)) {
    p.0 in target.nodes && p.1 in target.nodes && p.0 != p.1
  }

  /** The test that the enumeration of chains between the pair's nodes comes back empty. */
  function Unlinked(target: Graph, p: (Node, Node), k: int): (b: bool)
    requires ValidPair(target, p)
    ensures b <==> !Linked(target, p.0, p.1, k)
  {
    var chains := AllSimplePaths(target, p.0, p.1, k);
    assert |chains| > 0 ==> IsChain(target, chains[0], p.0, p.1, k);
    |chains| == 0
  }

  function RefineForPair(target: Graph, graph: Graph, k: int, p: (Node, Node)): (cs: seq<Constraint>)
    requires ValidPair(target, p)
    ensures forall c :: c in cs <==>
              Unlinked(target, p, k) && exists j :: j in graph.nodes && c == RefineIneq(p.0, p.1, j)
  {
    if Unlinked(target, p, k) then
      var js := graph.nodes;
      var cs := seq(|js|, i requires 0 <= i < |js| => RefineIneq(p.0, p.1, js[i]));
      assert forall j | j in js :: RefineIneq(p.0, p.1, j) in cs by {
        forall j | j in js ensures RefineIneq(p.0, p.1, j) in cs {
          var i :| 0 <= i < |js| && js[i] == j;
          assert cs[i] == RefineIneq(p.0, p.1, j);
        }
      }
      cs
    else []
  }

  function RefineOver(target: Graph, graph: Graph, k: int, ps: seq<(Node, Node)>): (cs: seq<Constraint>)
    requires forall p | p in ps :: ValidPair(target, p)
    ensures forall c :: c in cs <==>
              exists p, j :: p in ps && j in graph.nodes && Unlinked(target, p, k) && c == RefineIneq(p.0, p.1, j)
  {
    if ps == [] then []
    else RefineForPair(target, graph, k, ps[0]) + RefineOver(target, graph, k, ps[1..])
  }

  /** add_fs_refinement: for each unordered pair of distinct target nodes visited,
      and each graph node j, x[x1, j] + x[x2, j] <= 1 exactly when no chain of at
      most k edges joins x1 and x2 in `target`. */
  function AddFsRefinement(target: Graph, graph: Graph, vd: VarDict, k: int, order: seq<Node>): (cs: seq<Constraint>)
    requires IsOrderOf(order, target.nodes)
    requires Covers(vd, target, graph)
    ensures forall c :: c in cs <==>
              exists p, j :: p in Pairs(order) && j in graph.nodes && !Linked(target, p.0, p.1, k)
                             && c == RefineIneq(p.0, p.1, j)
  {
    RefineOver(target, graph, k, Pairs(order))
  }

  // ---------------------------------------------------------------------------
  // Edge pullback

  /** Every x[., .] the pullback family reads is in var_dict. */
  predicate CoversEdges(vd: VarDict, exs: seq<Edge>, eys: seq<Edge>) {
    forall ex, ey | ex in exs && ey in eys ::
      (ex.0, ey.0) in vd && (ex.1, ey.1) in vd && (ex.0, ey.1) in vd && (ex.1, ey.0) in vd
  }

  lemma CoversEdgesHead(vd: VarDict, exs: seq<Edge>, eys: seq<Edge>)
    requires exs != [] && CoversEdges(vd, exs, eys)
    ensures CoversEdges(vd, [exs[0]], eys) && CoversEdges(vd, exs[1..], eys)
  {
    assert exs[0] in exs;
    forall ex | ex in exs[1..] ensures ex in exs {
    }
  }

  lemma CoversEdgesSplit(vd: VarDict, exs: seq<Edge>, eys: seq<Edge>)
    requires eys != [] && CoversEdges(vd, exs, eys)
    ensures CoversEdges(vd, exs, [eys[0]]) && CoversEdges(vd, exs, eys[1..])
  {
    assert eys[0] in eys;
    forall ey | ey in eys[1..] ensures ey in eys {
    }
  }

  /** delta_p and delta_o of each target edge against ey, in order: the final running sum s. */
  function DeltaTerms(exs: seq<Edge>, ey: Edge): (vs: seq<Var>)
    ensures |vs| == 2 * |exs|
  {
    if exs == [] then []
    else [DeltaP(exs[0].0, exs[0].1, ey.0, ey.1), DeltaO(exs[0].0, exs[0].1, ey.0, ey.1)] + DeltaTerms(exs[1..], ey)
  }

  /** The inner loop of add_pullback_constraint from running sum `acc` on: per
      target edge, the two product definitions and `acc + delta_p + delta_o <= 1`. */
  function PullbackRun(exs: seq<Edge>, ey: Edge, acc: seq<Var>, vd: VarDict): (cs: seq<Constraint>)
    requires CoversEdges(vd, exs, [ey])
    ensures |cs| == 3 * |exs|
  {
    if exs == [] then []
    else
      var ex := exs[0];
      CoversEdgesHead(vd, exs, [ey]);
      var acc' := acc + [DeltaP(ex.0, ex.1, ey.0, ey.1), DeltaO(ex.0, ex.1, ey.0, ey.1)];
      PullbackStep(ex, ey, acc, vd) + PullbackRun(exs[1..], ey, acc', vd)
  }

  /** One iteration of the inner loop: define d_p and d_o, add them to the running sum, bound it by 1. */
  function PullbackStep(ex: Edge, ey: Edge, acc: seq<Var>, vd: VarDict): (cs: seq<Constraint>)
    requires CoversEdges(vd, [ex], [ey])
    ensures |cs| == 3
  {
    var dp := DefineDeltaP(ex.0, ex.1, ey.0, ey.1, vd);
    var d_o := DefineDeltaO(ex.0, ex.1, ey.0, ey.1, vd);
    [dp.definition, d_o.definition, Linear(acc + [dp.v, d_o.v], 0, Le, 1)]
  }

  /** Everything emitted for one graph edge: the running bounds, then `1 <= s`. */
  function PullbackFor(exs: seq<Edge>, ey: Edge, vd: VarDict): (cs: seq<Constraint>)
    requires CoversEdges(vd, exs, [ey])
    ensures |cs| == 3 * |exs| + 1
    ensures cs[|cs| - 1] == Linear(DeltaTerms(exs, ey), 0, Ge, 1)
  {
    PullbackRun(exs, ey, [], vd) + [Linear(DeltaTerms(exs, ey), 0, Ge, 1)]
  }

  function PullbackOver(exs: seq<Edge>, eys: seq<Edge>, vd: VarDict): (cs: seq<Constraint>)
    requires CoversEdges(vd, exs, eys)
    ensures |cs| == |eys| * (3 * |exs| + 1)
  {
    if eys == [] then []
    else
      CoversEdgesSplit(vd, exs, eys);
      var n := 3 * |exs| + 1;
      MulStep(|eys|, |eys[1..]|, n);
      PullbackFor(exs, eys[0], vd) + PullbackOver(exs, eys[1..], vd)
  }

  /** The number of (target edge, orientation) pairs that the assignment maps onto graph edge ey. */
  function Realizations(a: Assignment, exs: seq<Edge>, ey: Edge): nat {
    if exs == [] then 0
    else
      var ex := exs[0];
      (if a(X(ex.0, ey.0)) && a(X(ex.1, ey.1)) then 1 else 0)
      + (if a(X(ex.0, ey.1)) && a(X(ex.1, ey.0)) then 1 else 0)
      + Realizations(a, exs[1..], ey)
  }

  /** Every delta variable for ey holds the product it is defined as. */
  predicate DeltasExact(a: Assignment, exs: seq<Edge>, ey: Edge) {
    forall ex | ex in exs ::
      && (a(DeltaP(ex.0, ex.1, ey.0, ey.1)) <==> a(X(ex.0, ey.0)) && a(X(ex.1, ey.1)))
      && (a(DeltaO(ex.0, ex.1, ey.0, ey.1)) <==> a(X(ex.0, ey.1)) && a(X(ex.1, ey.0)))
  }

  /** Graph edge ey is pulled back: every delta for ey holds its product, and exactly one
      (target edge, orientation) pair is mapped onto ey. */
  predicate PulledBack(a: Assignment, exs: seq<Edge>, ey: Edge) {
    DeltasExact(a, exs, ey) && Realizations(a, exs, ey) == 1
  }

  lemma {:induction false} DeltaSum(a: Assignment, exs: seq<Edge>, ey: Edge)
    requires DeltasExact(a, exs, ey)
    ensures Sum(a, DeltaTerms(exs, ey)) == Realizations(a, exs, ey)
  {
    if exs != [] {
      var ex := exs[0];
      var two := [DeltaP(ex.0, ex.1, ey.0, ey.1), DeltaO(ex.0, ex.1, ey.0, ey.1)];
      SumAppend(a, two, DeltaTerms(exs[1..], ey));
      assert Sum(a, two) == Val(a, two[0]) + Sum(a, [two[1]]);
      DeltaSum(a, exs[1..], ey);
    }
  }

  lemma DeltasExactStep(a: Assignment, exs: seq<Edge>, ey: Edge)
    requires exs != []
    ensures DeltasExact(a, exs, ey) <==>
              && (a(DeltaP(exs[0].0, exs[0].1, ey.0, ey.1)) <==> a(X(exs[0].0, ey.0)) && a(X(exs[0].1, ey.1)))
              && (a(DeltaO(exs[0].0, exs[0].1, ey.0, ey.1)) <==> a(X(exs[0].0, ey.1)) && a(X(exs[0].1, ey.0)))
              && DeltasExact(a, exs[1..], ey)
  {
    assert forall e | e in exs :: e == exs[0] || e in exs[1..];
  }

  lemma RunningSumStep(a: Assignment, exs: seq<Edge>, ey: Edge, acc: seq<Var>)
    requires exs != []
    ensures var acc' := acc + [DeltaP(exs[0].0, exs[0].1, ey.0, ey.1), DeltaO(exs[0].0, exs[0].1, ey.0, ey.1)];
            && Sum(a, acc') + Sum(a, DeltaTerms(exs[1..], ey)) == Sum(a, acc) + Sum(a, DeltaTerms(exs, ey))
            && Sum(a, acc') <= Sum(a, acc) + Sum(a, DeltaTerms(exs, ey))
  {
    var two := [DeltaP(exs[0].0, exs[0].1, ey.0, ey.1), DeltaO(exs[0].0, exs[0].1, ey.0, ey.1)];
    SumAppend(a, acc, two);
    SumAppend(a, two, DeltaTerms(exs[1..], ey));
  }

  /** One step of the inner loop holds exactly when both deltas hold their products and the running sum is at most 1. */
  lemma PullbackStepSat(ex: Edge, ey: Edge, acc: seq<Var>, vd: VarDict, a: Assignment)
    requires CoversEdges(vd, [ex], [ey])
    ensures Sat(a, PullbackStep(ex, ey, acc, vd)) <==>
              && (a(DeltaP(ex.0, ex.1, ey.0, ey.1)) <==> a(X(ex.0, ey.0)) && a(X(ex.1, ey.1)))
              && (a(DeltaO(ex.0, ex.1, ey.0, ey.1)) <==> a(X(ex.0, ey.1)) && a(X(ex.1, ey.0)))
              && Sum(a, acc + [DeltaP(ex.0, ex.1, ey.0, ey.1), DeltaO(ex.0, ex.1, ey.0, ey.1)]) <= 1
  {
    var cs := PullbackStep(ex, ey, acc, vd);
    assert Sat(a, cs) <==> Holds(a, cs[0]) && Holds(a, cs[1]) && Holds(a, cs[2]);
  }

  /** One step of the inner loop: the two product definitions, the running bound, and the rest. */
  lemma PullbackRunStep(exs: seq<Edge>, ey: Edge, acc: seq<Var>, vd: VarDict, a: Assignment)
    requires exs != [] && CoversEdges(vd, exs, [ey])
    ensures CoversEdges(vd, exs[1..], [ey])
    ensures var acc' := acc + [DeltaP(exs[0].0, exs[0].1, ey.0, ey.1), DeltaO(exs[0].0, exs[0].1, ey.0, ey.1)];
            Sat(a, PullbackRun(exs, ey, acc, vd)) <==>
              && (a(DeltaP(exs[0].0, exs[0].1, ey.0, ey.1)) <==> a(X(exs[0].0, ey.0)) && a(X(exs[0].1, ey.1)))
              && (a(DeltaO(exs[0].0, exs[0].1, ey.0, ey.1)) <==> a(X(exs[0].0, ey.1)) && a(X(exs[0].1, ey.0)))
              && Sum(a, acc') <= 1
              && Sat(a, PullbackRun(exs[1..], ey, acc', vd))
  {
    var ex := exs[0];
    CoversEdgesHead(vd, exs, [ey]);
    var acc' := acc + [DeltaP(ex.0, ex.1, ey.0, ey.1), DeltaO(ex.0, ex.1, ey.0, ey.1)];
    SatAppend(a, PullbackStep(ex, ey, acc, vd), PullbackRun(exs[1..], ey, acc', vd));
    PullbackStepSat(ex, ey, acc, vd, a);
  }

  /** The running bounds of one graph edge: with the deltas exact they all hold
      exactly when the last one does. */
  lemma {:induction false} PullbackRunSat(exs: seq<Edge>, ey: Edge, acc: seq<Var>, vd: VarDict, a: Assignment)
    requires CoversEdges(vd, exs, [ey])
    ensures Sat(a, PullbackRun(exs, ey, acc, vd)) <==>
              DeltasExact(a, exs, ey) && (exs == [] || Sum(a, acc) + Sum(a, DeltaTerms(exs, ey)) <= 1)
  {
    if exs != [] {
      var acc' := acc + [DeltaP(exs[0].0, exs[0].1, ey.0, ey.1), DeltaO(exs[0].0, exs[0].1, ey.0, ey.1)];
      PullbackRunStep(exs, ey, acc, vd, a);
      PullbackRunSat(exs[1..], ey, acc', vd, a);
      RunningSumStep(a, exs, ey, acc);
      DeltasExactStep(a, exs, ey);
    }
  }

  lemma PullbackForSat(exs: seq<Edge>, ey: Edge, vd: VarDict, a: Assignment)
    requires CoversEdges(vd, exs, [ey])
    ensures Sat(a, PullbackFor(exs, ey, vd)) <==> PulledBack(a, exs, ey)
  {
    var run := PullbackRun(exs, ey, [], vd);
    var last := Linear(DeltaTerms(exs, ey), 0, Ge, 1);
    SatAppend(a, run, [last]);
    assert Sat(a, [last]) <==> Holds(a, last);
    PullbackRunSat(exs, ey, [], vd, a);
    if DeltasExact(a, exs, ey) {
      DeltaSum(a, exs, ey);
    }
  }

  /** add_pullback_constraint is satisfied exactly when the deltas hold their
      products and every graph edge is the image of exactly one target edge in
      exactly one orientation: the running upper bounds collapse the intended
      "at least one" into "exactly one". */
  lemma {:induction false} PullbackSemantics(exs: seq<Edge>, eys: seq<Edge>, vd: VarDict, a: Assignment)
    requires CoversEdges(vd, exs, eys)
    ensures Sat(a, PullbackOver(exs, eys, vd)) <==>
              forall ey | ey in eys :: PulledBack(a, exs, ey)
  {
    if eys != [] {
      CoversEdgesSplit(vd, exs, eys);
      var head, tail := PullbackFor(exs, eys[0], vd), PullbackOver(exs, eys[1..], vd);
      assert PullbackOver(exs, eys, vd) == head + tail;
      SatAppend(a, head, tail);
      PullbackForSat(exs, eys[0], vd, a);
      PullbackSemantics(exs, eys[1..], vd, a);
      EveryEdgeSplit(a, exs, eys);
    }
  }

  lemma EveryEdgeSplit(a: Assignment, exs: seq<Edge>, eys: seq<Edge>)
    requires eys != []
    ensures (forall ey | ey in eys :: PulledBack(a, exs, ey)) <==>
              PulledBack(a, exs, eys[0]) && forall ey | ey in eys[1..] :: PulledBack(a, exs, ey)
  {
    assert forall ey | ey in eys :: ey == eys[0] || ey in eys[1..];
  }

  /** add_pullback_constraint: for each graph edge, in order, 3 constraints per
      target edge and one lower bound. An assignment satisfies them exactly when
      every delta holds its product and every graph edge is the image of exactly
      one target edge in exactly one orientation. */
  function AddPullbackConstraint(target: Graph, graph: Graph, vd: VarDict): (cs: seq<Constraint>)
    requires CoversEdges(vd, target.edges, graph.edges)
    ensures |cs| == |graph.edges| * (3 * |target.edges| + 1)
    ensures forall a: Assignment :: Sat(a, cs) <==>
              forall ey | ey in graph.edges :: PulledBack(a, target.edges, ey)
  {
    var cs := PullbackOver(target.edges, graph.edges, vd);
    assert forall a: Assignment :: Sat(a, cs) <==>
             forall ey | ey in graph.edges :: PulledBack(a, target.edges, ey) by {
      forall a: Assignment
        ensures Sat(a, cs) <==>
                forall ey | ey in graph.edges :: PulledBack(a, target.edges, ey)
      {
        PullbackSemantics(target.edges, graph.edges, vd, a);
      }
    }
    cs
  }

  // ---------------------------------------------------------------------------
  // Fiber / chain connectivity

  /** x[x1, j] + x[x2, j] + sum(gammas) - 1 <= 2 */
  function FiberIneq(x1: Node, x2: Node, j: Node, gammas: seq<Var>): Constraint {
    Linear([X(x1, j), X(x2, j)] + gammas, -1, Le, 2)
  }

  /** The gamma variables of the chains, one per chain, in order. */
  function ChainGammas(chains: seq<seq<Node>>, j: Node): (vs: seq<Var>)
    ensures |vs| == |chains|
    ensures forall i | 0 <= i < |chains| :: vs[i] == Gamma(chains[i], j)
  {
    seq(|chains|, i requires 0 <= i < |chains| => Gamma(chains[i], j))
  }

  lemma ChainNodesCovered(target: Graph, graph: Graph, vd: VarDict, p: (Node, Node), k: int, j: Node)
    requires ValidPair(target, p) && Covers(vd, target, graph) && j in graph.nodes
    ensures forall c, n | c in AllSimplePaths(target, p.0, p.1, k) && n in Interior(c) :: (n, j) in vd
  {
    forall c, n | c in AllSimplePaths(target, p.0, p.1, k) && n in Interior(c) ensures (n, j) in vd {
      var i :| 0 <= i < |c| && c[i] == n;
    }
  }

  /** What the innermost loop body emits for graph node j and pair p: nothing
      without a chain, otherwise the gamma definitions and one inequality. */
  function FiberBlock(target: Graph, graph: Graph, k: int, vd: VarDict, j: Node, p: (Node, Node)): (cs: seq<Constraint>)
    requires ValidPair(target, p) && Covers(vd, target, graph) && j in graph.nodes
    ensures !Linked(target, p.0, p.1, k) ==> cs == []
    ensures Linked(target, p.0, p.1, k) ==>
              var chains := AllSimplePaths(target, p.0, p.1, k);
              && |cs| == |chains| + 1
              && (forall i | 0 <= i < |chains| :: cs[i] == DefineGamma(chains[i], j).definition)
              && cs[|chains|] == FiberIneq(p.0, p.1, j, ChainGammas(chains, j))
  {
    var chains := AllSimplePaths(target, p.0, p.1, k);
    if |chains| > 0 then
      ChainNodesCovered(target, graph, vd, p, k, j);
      assert NonEmpty(chains) == chains by {
        FilterKeepsAll(chains, IsNonEmpty);
      }
      var gs := DefineGammaVariables(chains, j, vd);
      assert AuxVars(gs) == ChainGammas(chains, j);
      Definitions(gs) + [FiberIneq(p.0, p.1, j, AuxVars(gs))]
    else
      assert !Unlinked(target, p, k) <==> Linked(target, p.0, p.1, k);
      []
  }

  /** The number of chains whose interior lies wholly in the fiber of j. */
  function ThroughCount(a: Assignment, chains: seq<seq<Node>>, j: Node): nat {
    if chains == [] then 0
    else (if InFiber(a, Interior(chains[0]), j) then 1 else 0) + ThroughCount(a, chains[1..], j)
  }

  lemma {:induction false} GammaSum(a: Assignment, chains: seq<seq<Node>>, j: Node)
    requires forall i | 0 <= i < |chains| :: Holds(a, DefineGamma(chains[i], j).definition)
    ensures Sum(a, ChainGammas(chains, j)) == ThroughCount(a, chains, j)
  {
    if chains != [] {
      assert ChainGammas(chains, j)[1..] == ChainGammas(chains[1..], j);
      assert Holds(a, DefineGamma(chains[0], j).definition);
      forall i | 0 <= i < |chains[1..]| ensures Holds(a, DefineGamma(chains[1..][i], j).definition) {
        assert chains[1..][i] == chains[i + 1];
      }
      GammaSum(a, chains[1..], j);
    }
  }

  lemma FiberBlockSat(target: Graph, graph: Graph, k: int, vd: VarDict, j: Node, p: (Node, Node), a: Assignment)
    requires ValidPair(target, p) && Covers(vd, target, graph) && j in graph.nodes
    requires Linked(target, p.0, p.1, k)
    requires Sat(a, FiberBlock(target, graph, k, vd, j, p))
    ensures Val(a, X(p.0, j)) + Val(a, X(p.1, j)) + ThroughCount(a, AllSimplePaths(target, p.0, p.1, k), j) <= 3
  {
    var chains := AllSimplePaths(target, p.0, p.1, k);
    var cs := FiberBlock(target, graph, k, vd, j, p);
    forall i | 0 <= i < |chains| ensures Holds(a, DefineGamma(chains[i], j).definition) {
      assert cs[i] in cs;
    }
    GammaSum(a, chains, j);
    assert cs[|chains|] in cs;
    SumAppend(a, [X(p.0, j), X(p.1, j)], ChainGammas(chains, j));
    assert Sum(a, [X(p.0, j), X(p.1, j)]) == Val(a, X(p.0, j)) + Sum(a, [X(p.1, j)]);
  }

  function FiberOverPairs(target: Graph, graph: Graph, k: int, vd: VarDict, j: Node, ps: seq<(Node, Node)>): (cs: seq<Constraint>)
    requires forall p | p in ps :: ValidPair(target, p)
    requires Covers(vd, target, graph) && j in graph.nodes
  {
    if ps == [] then []
    else FiberBlock(target, graph, k, vd, j, ps[0]) + FiberOverPairs(target, graph, k, vd, j, ps[1..])
  }

  function FiberOverNodes(target: Graph, graph: Graph, k: int, vd: VarDict, js: seq<Node>, ps: seq<(Node, Node)>): (cs: seq<Constraint>)
    requires forall p | p in ps :: ValidPair(target, p)
    requires Covers(vd, target, graph) && forall j | j in js :: j in graph.nodes
  {
    if js == [] then []
    else FiberOverPairs(target, graph, k, vd, js[0], ps) + FiberOverNodes(target, graph, k, vd, js[1..], ps)
  }

  /** What the block for graph node j and pair p demands when a chain joins the
      pair: each chain's gamma is 1 exactly when the chain's interior lies in the
      fiber of j, and x[x1, j] + x[x2, j] plus the number of such chains is at most 3. */
  ghost predicate ChainsHold(a: Assignment, target: Graph, k: int, j: Node, p: (Node, Node)) {
    ValidPair(target, p) && Linked(target, p.0, p.1, k) ==>
      var chains := AllSimplePaths(target, p.0, p.1, k);
      && (forall c | c in chains :: a(Gamma(c, j)) <==> InFiber(a, Interior(c), j))
      && Val(a, X(p.0, j)) + Val(a, X(p.1, j)) + ThroughCount(a, chains, j) <= 3
  }

  /** The block for j and p is satisfied exactly when its chain conditions hold. */
  lemma FiberBlockIff(target: Graph, graph: Graph, k: int, vd: VarDict, j: Node, p: (Node, Node), a: Assignment)
    requires ValidPair(target, p) && Covers(vd, target, graph) && j in graph.nodes
    ensures Sat(a, FiberBlock(target, graph, k, vd, j, p)) <==> ChainsHold(a, target, k, j, p)
  {
    if Linked(target, p.0, p.1, k) {
      var chains := AllSimplePaths(target, p.0, p.1, k);
      if Sat(a, FiberBlock(target, graph, k, vd, j, p)) {
        FiberBlockSat(target, graph, k, vd, j, p, a);
        GammasExact(target, graph, k, vd, j, p, a);
      }
      if ChainsHold(a, target, k, j, p) {
        FiberBlockHolds(target, graph, k, vd, j, p, a);
      }
    }
  }

  /** In a satisfied block every chain's gamma holds its product. */
  lemma GammasExact(target: Graph, graph: Graph, k: int, vd: VarDict, j: Node, p: (Node, Node), a: Assignment)
    requires ValidPair(target, p) && Covers(vd, target, graph) && j in graph.nodes
    requires Linked(target, p.0, p.1, k)
    requires Sat(a, FiberBlock(target, graph, k, vd, j, p))
    ensures forall c | c in AllSimplePaths(target, p.0, p.1, k) :: a(Gamma(c, j)) <==> InFiber(a, Interior(c), j)
  {
    var chains := AllSimplePaths(target, p.0, p.1, k);
    var cs := FiberBlock(target, graph, k, vd, j, p);
    forall i | 0 <= i < |chains| ensures Holds(a, DefineGamma(chains[i], j).definition) {
      assert cs[i] in cs;
    }
    GammaDefsExact(a, chains, j);
  }

  lemma GammaDefsExact(a: Assignment, chains: seq<seq<Node>>, j: Node)
    requires forall i | 0 <= i < |chains| :: Holds(a, DefineGamma(chains[i], j).definition)
    ensures forall c | c in chains :: a(Gamma(c, j)) <==> InFiber(a, Interior(c), j)
  {
    forall c | c in chains ensures a(Gamma(c, j)) <==> InFiber(a, Interior(c), j) {
      var i :| 0 <= i < |chains| && chains[i] == c;
      var g := DefineGamma(c, j);
      assert Holds(a, g.definition);
    }
  }

  /** Exact gammas and the bound satisfy the block. */
  lemma FiberBlockHolds(target: Graph, graph: Graph, k: int, vd: VarDict, j: Node, p: (Node, Node), a: Assignment)
    requires ValidPair(target, p) && Covers(vd, target, graph) && j in graph.nodes
    requires Linked(target, p.0, p.1, k) && ChainsHold(a, target, k, j, p)
    ensures Sat(a, FiberBlock(target, graph, k, vd, j, p))
  {
    var chains := AllSimplePaths(target, p.0, p.1, k);
    var cs := FiberBlock(target, graph, k, vd, j, p);
    assert forall c | c in chains :: a(Gamma(c, j)) <==> InFiber(a, Interior(c), j);
    GammaDefsHold(a, chains, j);
    FiberIneqHolds(a, p.0, p.1, j, chains);
    BlockShapeSat(a, cs, chains, j, p.0, p.1);
  }

  /** A block made of the gamma definitions and the chain inequality is satisfied when each of them holds. */
  lemma BlockShapeSat(a: Assignment, cs: seq<Constraint>, chains: seq<seq<Node>>, j: Node, x1: Node, x2: Node)
    requires |cs| == |chains| + 1
    requires forall i | 0 <= i < |chains| :: cs[i] == DefineGamma(chains[i], j).definition
    requires cs[|chains|] == FiberIneq(x1, x2, j, ChainGammas(chains, j))
    requires forall i | 0 <= i < |chains| :: Holds(a, DefineGamma(chains[i], j).definition)
    requires Holds(a, FiberIneq(x1, x2, j, ChainGammas(chains, j)))
    ensures Sat(a, cs)
  {
    forall i | 0 <= i < |chains| ensures Holds(a, cs[i]) {
      assert cs[i] == DefineGamma(chains[i], j).definition;
    }
    SatUpToLast(a, cs);
  }

  lemma GammaDefsHold(a: Assignment, chains: seq<seq<Node>>, j: Node)
    requires forall c | c in chains :: a(Gamma(c, j)) <==> InFiber(a, Interior(c), j)
    ensures forall i | 0 <= i < |chains| :: Holds(a, DefineGamma(chains[i], j).definition)
  {
    forall i | 0 <= i < |chains| ensures Holds(a, DefineGamma(chains[i], j).definition) {
      var g := DefineGamma(chains[i], j);
      assert chains[i] in chains;
      assert a(g.v) <==> InFiber(a, Interior(chains[i]), j);
    }
  }

  lemma FiberIneqHolds(a: Assignment, x1: Node, x2: Node, j: Node, chains: seq<seq<Node>>)
    requires forall i | 0 <= i < |chains| :: Holds(a, DefineGamma(chains[i], j).definition)
    requires Val(a, X(x1, j)) + Val(a, X(x2, j)) + ThroughCount(a, chains, j) <= 3
    ensures Holds(a, FiberIneq(x1, x2, j, ChainGammas(chains, j)))
  {
    GammaSum(a, chains, j);
    SumAppend(a, [X(x1, j), X(x2, j)], ChainGammas(chains, j));
    assert Sum(a, [X(x1, j), X(x2, j)]) == Val(a, X(x1, j)) + Sum(a, [X(x2, j)]);
  }

  lemma {:induction false} FiberOverPairsIff(target: Graph, graph: Graph, k: int, vd: VarDict, j: Node, ps: seq<(Node, Node)>, a: Assignment)
    requires forall p | p in ps :: ValidPair(target, p)
    requires Covers(vd, target, graph) && j in graph.nodes
    ensures Sat(a, FiberOverPairs(target, graph, k, vd, j, ps)) <==> forall p | p in ps :: ChainsHold(a, target, k, j, p)
  {
    if ps != [] {
      SatAppend(a, FiberBlock(target, graph, k, vd, j, ps[0]), FiberOverPairs(target, graph, k, vd, j, ps[1..]));
      FiberBlockIff(target, graph, k, vd, j, ps[0], a);
      FiberOverPairsIff(target, graph, k, vd, j, ps[1..], a);
      assert forall p | p in ps :: p == ps[0] || p in ps[1..];
    }
  }

  lemma {:induction false} FiberOverNodesIff(target: Graph, graph: Graph, k: int, vd: VarDict, js: seq<Node>, ps: seq<(Node, Node)>, a: Assignment)
    requires forall p | p in ps :: ValidPair(target, p)
    requires Covers(vd, target, graph) && forall j | j in js :: j in graph.nodes
    ensures Sat(a, FiberOverNodes(target, graph, k, vd, js, ps)) <==>
              forall j, p | j in js && p in ps :: ChainsHold(a, target, k, j, p)
  {
    if js != [] {
      SatAppend(a, FiberOverPairs(target, graph, k, vd, js[0], ps), FiberOverNodes(target, graph, k, vd, js[1..], ps));
      FiberOverPairsIff(target, graph, k, vd, js[0], ps, a);
      FiberOverNodesIff(target, graph, k, vd, js[1..], ps, a);
      assert forall j | j in js :: j == js[0] || j in js[1..];
    }
  }

  /** add_fiber_constraint: for every graph node j and every visited pair of target
      nodes joined by at least one chain, gamma definitions and one inequality. An
      assignment satisfies them exactly when every such block's chain conditions hold. */
  function AddFiberConstraint(graph: Graph, target: Graph, k: int, vd: VarDict, order: seq<Node>): (cs: seq<Constraint>)
    requires IsOrderOf(order, target.nodes)
    requires Covers(vd, target, graph)
    ensures forall a: Assignment :: Sat(a, cs) <==>
              forall j, p | j in graph.nodes && p in Pairs(order) :: ChainsHold(a, target, k, j, p)
  {
    var ps := Pairs(order);
    var cs := FiberOverNodes(target, graph, k, vd, graph.nodes, ps);
    assert forall a: Assignment :: Sat(a, cs) <==>
             forall j, p | j in graph.nodes && p in ps :: ChainsHold(a, target, k, j, p) by {
      forall a: Assignment
        ensures Sat(a, cs) <==> forall j, p | j in graph.nodes && p in ps :: ChainsHold(a, target, k, j, p)
      {
        FiberOverNodesIff(target, graph, k, vd, graph.nodes, ps, a);
      }
    }
    cs
  }
}

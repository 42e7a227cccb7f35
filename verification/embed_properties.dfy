/** What the constraint families of ip_embed.py imply for, and demand of, a 0/1
    assignment that satisfies them, and how the pair loops visit target nodes. */
module EmbedProperties {
  import opened Seqs
  import opened Paths
  import opened Constraints
  import opened IpEmbed

  // ---------------------------------------------------------------------------
  // Pair enumeration

  lemma {:induction false} RowCount(x: Node, rest: seq<Node>, p: (Node, Node))
    requires Distinct(rest)
    ensures multiset(Row(x, rest))[p] == if p.0 == x && p.1 in rest then 1 else 0
  {
    if rest != [] {
      assert Row(x, rest) == [(x, rest[0])] + Row(x, rest[1..]);
      RowCount(x, rest[1..], p);
      assert rest[0] !in rest[1..];
      assert p.1 in rest <==> p.1 == rest[0] || p.1 in rest[1..];
    }
  }

  /** The pair loops visit every unordered pair of distinct nodes exactly once, in one of its two orientations. */
  lemma {:induction false} PairsVisitOnce(order: seq<Node>, x: Node, y: Node)
    requires Distinct(order) && x in order && y in order && x != y
    ensures multiset(Pairs(order))[(x, y)] + multiset(Pairs(order))[(y, x)] == 1
  {
    var rest := order[1..];
    assert Pairs(order) == Row(order[0], rest) + Pairs(rest);
    assert order[0] !in rest;
    RowCount(order[0], rest, (x, y));
    RowCount(order[0], rest, (y, x));
    if x == order[0] || y == order[0] {
      assert (x, y) !in Pairs(rest) && (y, x) !in Pairs(rest);
    } else {
      PairsVisitOnce(rest, x, y);
    }
  }

  lemma PairsCover(order: seq<Node>, x: Node, y: Node)
    requires Distinct(order) && x in order && y in order && x != y
    ensures (x, y) in Pairs(order) || (y, x) in Pairs(order)
  {
    PairsVisitOnce(order, x, y);
  }

  // ---------------------------------------------------------------------------
  // Fiber-size refinement

  lemma RefineIneqHolds(a: Assignment, x1: Node, x2: Node, j: Node)
    ensures Holds(a, RefineIneq(x1, x2, j)) <==> !(a(X(x1, j)) && a(X(x2, j)))
  {
    assert Sum(a, [X(x1, j), X(x2, j)]) == Val(a, X(x1, j)) + Sum(a, [X(x2, j)]);
  }

  /** No graph node's fiber holds two target nodes that no chain of at most k edges joins. */
  ghost predicate Separated(a: Assignment, target: Graph, graph: Graph, k: int) {
    forall x1, x2, j | x1 in target.nodes && x2 in target.nodes && x1 != x2 && j in graph.nodes
                       && !Linked(target, x1, x2, k) :: !(a(X(x1, j)) && a(X(x2, j)))
  }

  /** add_fs_refinement is satisfied exactly by the assignments that never put two
      unlinked target nodes into the same fiber, whatever order the pairs are visited in. */
  lemma RefinementSemantics(target: Graph, graph: Graph, vd: VarDict, k: int, order: seq<Node>, a: Assignment)
    requires IsOrderOf(order, target.nodes) && Covers(vd, target, graph)
    ensures Sat(a, AddFsRefinement(target, graph, vd, k, order)) <==> Separated(a, target, graph, k)
  {
    var cs := AddFsRefinement(target, graph, vd, k, order);
    if Sat(a, cs) {
      forall x1, x2, j | x1 in target.nodes && x2 in target.nodes && x1 != x2 && j in graph.nodes
                         && !Linked(target, x1, x2, k)
        ensures !(a(X(x1, j)) && a(X(x2, j)))
      {
        PairsCover(order, x1, x2);
        LinkedSymmetric(target, x1, x2, k);
        if (x1, x2) in Pairs(order) {
          assert RefineIneq(x1, x2, j) in cs;
          RefineIneqHolds(a, x1, x2, j);
        } else {
          assert RefineIneq(x2, x1, j) in cs;
          RefineIneqHolds(a, x2, x1, j);
        }
      }
    }
    if Separated(a, target, graph, k) {
      forall c | c in cs ensures Holds(a, c) {
        var p, j :| p in Pairs(order) && j in graph.nodes && !Linked(target, p.0, p.1, k)
                    && c == RefineIneq(p.0, p.1, j);
        RefineIneqHolds(a, p.0, p.1, j);
      }
    }
  }

  /** For distinct target nodes x1, x2 and any graph node j, the inequality
      x[x1, j] + x[x2, j] <= 1 is emitted, in one orientation, exactly when no chain of at most k edges joins them. */
  lemma RefinementEmitted(target: Graph, graph: Graph, vd: VarDict, k: int, order: seq<Node>, x1: Node, x2: Node, j: Node)
    requires IsOrderOf(order, target.nodes) && Covers(vd, target, graph)
    requires x1 in target.nodes && x2 in target.nodes && x1 != x2 && j in graph.nodes
    ensures var cs := AddFsRefinement(target, graph, vd, k, order);
            RefineIneq(x1, x2, j) in cs || RefineIneq(x2, x1, j) in cs <==> !Linked(target, x1, x2, k)
  {
    var cs := AddFsRefinement(target, graph, vd, k, order);
    LinkedSymmetric(target, x1, x2, k);
    if !Linked(target, x1, x2, k) {
      PairsCover(order, x1, x2);
      if (x1, x2) in Pairs(order) {
        assert RefineIneq(x1, x2, j) in cs;
      } else {
        assert RefineIneq(x2, x1, j) in cs;
      }
    }
    if RefineIneq(x1, x2, j) in cs {
      var p, j' :| p in Pairs(order) && j' in graph.nodes && !Linked(target, p.0, p.1, k)
                   && RefineIneq(x1, x2, j) == RefineIneq(p.0, p.1, j');
      assert X(x1, j) == X(p.0, j') && X(x2, j) == X(p.1, j');
    }
    if RefineIneq(x2, x1, j) in cs {
      var p, j' :| p in Pairs(order) && j' in graph.nodes && !Linked(target, p.0, p.1, k)
                   && RefineIneq(x2, x1, j) == RefineIneq(p.0, p.1, j');
      assert X(x2, j) == X(p.0, j') && X(x1, j) == X(p.1, j');
    }
  }

  // ---------------------------------------------------------------------------
  // Fiber sizes

  /** Surjectivity: under add_fs_constraint every graph node's fiber holds some target node. */
  lemma FiberNonEmpty(target: Graph, graph: Graph, vd: VarDict, k: int, a: Assignment, n: Node)
    requires Covers(vd, target, graph) && n in graph.nodes
    requires Sat(a, AddFsConstraint(target, graph, vd, k))
    ensures exists v :: v in target.nodes && a(X(v, n))
  {
    var f := Fiber(a, target.nodes, n);
    assert |f| >= 1;
    var v :| v in f;
  }

  /** The shadowed bound rejects every assignment for a one-node target labelled 0
      and fiber bound 1, although the single fiber of size 1 respects the bound the
      parameter gives. */
  lemma ShadowedBoundCounterexample()
    ensures var target: Graph := RawGraph([0], []);
            var graph: Graph := RawGraph([5], []);
            var vd := DefineDecisionVariables(target, graph);
            && (forall a: Assignment :: !Sat(a, AddFsConstraint(target, graph, vd, 1)))
            && Sat(v => true, AddFsConstraintIntended(target, graph, vd, 1))
  {
    var target: Graph := RawGraph([0], []);
    var graph: Graph := RawGraph([5], []);
    var vd := DefineDecisionVariables(target, graph);
    assert Covers(vd, target, graph);
    assert ShadowedBound(target, 1) == 0;
    var all: Assignment := v => true;
    assert Fiber(all, target.nodes, 5) == {0};
  }

  /** The shadowed bound also admits fibers larger than the parameter: with target
      nodes 7 and 8 and k = 1, both may lie in the one fiber. */
  lemma ShadowedBoundTooLoose()
    ensures var target: Graph := RawGraph([7, 8], []);
            var graph: Graph := RawGraph([5], []);
            var vd := DefineDecisionVariables(target, graph);
            && Sat(v => true, AddFsConstraint(target, graph, vd, 1))
            && !Sat(v => true, AddFsConstraintIntended(target, graph, vd, 1))
  {
    var target: Graph := RawGraph([7, 8], []);
    var graph: Graph := RawGraph([5], []);
    var vd := DefineDecisionVariables(target, graph);
    assert Covers(vd, target, graph);
    var all: Assignment := v => true;
    assert Fiber(all, target.nodes, 5) == {7, 8};
  }

  // ---------------------------------------------------------------------------
  // Edge pullback

  /** With no target edges, the emitted `1 <= 0` leaves nothing satisfiable once `graph` has an edge. */
  lemma PullbackWithoutTargetEdges(target: Graph, graph: Graph, vd: VarDict, a: Assignment)
    requires CoversEdges(vd, target.edges, graph.edges)
    requires target.edges == [] && graph.edges != []
    ensures !Sat(a, AddPullbackConstraint(target, graph, vd))
  {
    PullbackSemantics(target.edges, graph.edges, vd, a);
    assert graph.edges[0] in graph.edges;
  }

  // ---------------------------------------------------------------------------
  // Fiber / chain connectivity

  /** The chain inequality holds for every 0/1 assignment exactly when it has at
      most one gamma term: with a single chain it never excludes anything. */
  lemma FiberIneqBinds(x1: Node, x2: Node, j: Node, gammas: seq<Var>)
    ensures (forall a: Assignment :: Holds(a, FiberIneq(x1, x2, j, gammas))) <==> |gammas| <= 1
  {
    var all: Assignment := v => true;
    SumAllSet(all, [X(x1, j), X(x2, j)] + gammas);
    if |gammas| > 1 {
      assert !Holds(all, FiberIneq(x1, x2, j, gammas));
    }
  }

  lemma {:induction false} SumAllSet(a: Assignment, vs: seq<Var>)
    requires AllSet(a, vs)
    ensures Sum(a, vs) == |vs|
  {
    if vs != [] {
      SumAllSet(a, vs[1..]);
    }
  }

  lemma {:induction false} FiberOverPairsHas(target: Graph, graph: Graph, k: int, vd: VarDict, j: Node, ps: seq<(Node, Node)>, p: (Node, Node), c: Constraint)
    requires forall q | q in ps :: ValidPair(target, q)
    requires Covers(vd, target, graph) && j in graph.nodes
    requires p in ps && c in FiberBlock(target, graph, k, vd, j, p)
    ensures c in FiberOverPairs(target, graph, k, vd, j, ps)
  {
    if ps[0] != p {
      FiberOverPairsHas(target, graph, k, vd, j, ps[1..], p, c);
    }
  }

  lemma {:induction false} FiberOverNodesHas(target: Graph, graph: Graph, k: int, vd: VarDict, js: seq<Node>, ps: seq<(Node, Node)>, j: Node, c: Constraint)
    requires forall q | q in ps :: ValidPair(target, q)
    requires Covers(vd, target, graph) && forall i | i in js :: i in graph.nodes
    requires j in js && c in FiberOverPairs(target, graph, k, vd, j, ps)
    ensures c in FiberOverNodes(target, graph, k, vd, js, ps)
  {
    if js[0] != j {
      FiberOverNodesHas(target, graph, k, vd, js[1..], ps, j, c);
    }
  }

  /** In any assignment satisfying add_fiber_constraint, for every graph node j and
      every visited pair joined by a chain: x[x1, j] + x[x2, j] plus the number of
      chains whose interior lies in the fiber of j is at most 3. */
  lemma FiberSemantics(graph: Graph, target: Graph, k: int, vd: VarDict, order: seq<Node>, a: Assignment, j: Node, p: (Node, Node))
    requires IsOrderOf(order, target.nodes) && Covers(vd, target, graph)
    requires Sat(a, AddFiberConstraint(graph, target, k, vd, order))
    requires j in graph.nodes && p in Pairs(order) && Linked(target, p.0, p.1, k)
    ensures Val(a, X(p.0, j)) + Val(a, X(p.1, j)) + ThroughCount(a, AllSimplePaths(target, p.0, p.1, k), j) <= 3
  {
    var ps := Pairs(order);
    forall c | c in FiberBlock(target, graph, k, vd, j, p)
      ensures c in AddFiberConstraint(graph, target, k, vd, order)
    {
      FiberOverPairsHas(target, graph, k, vd, j, ps, p, c);
      FiberOverNodesHas(target, graph, k, vd, graph.nodes, ps, j, c);
    }
    FiberBlockSat(target, graph, k, vd, j, p, a);
  }

  /** The number of linear (non-product) constraints in cs. */
  function Inequalities(cs: seq<Constraint>): nat {
    if cs == [] then 0 else (if cs[0].Linear? then 1 else 0) + Inequalities(cs[1..])
  }

  lemma {:induction false} InequalitiesAppend(cs: seq<Constraint>, ds: seq<Constraint>)
    ensures Inequalities(cs + ds) == Inequalities(cs) + Inequalities(ds)
  {
    if cs == [] {
      assert cs + ds == ds;
    } else {
      assert (cs + ds)[1..] == cs[1..] + ds;
      InequalitiesAppend(cs[1..], ds);
    }
  }

  /** The number of pairs in ps joined by a chain of at most k edges. */
  function LinkedCount(target: Graph, k: int, ps: seq<(Node, Node)>): nat
    requires forall p | p in ps :: ValidPair(target, p)
  {
    if ps == [] then 0 else (if Unlinked(target, ps[0], k) then 0 else 1) + LinkedCount(target, k, ps[1..])
  }

  lemma {:induction false} ProductsOnly(cs: seq<Constraint>)
    requires forall c | c in cs :: c.Product?
    ensures Inequalities(cs) == 0
  {
    if cs != [] {
      assert cs[0] in cs;
      assert forall c | c in cs[1..] :: c in cs;
      ProductsOnly(cs[1..]);
    }
  }

  lemma FiberBlockCount(target: Graph, graph: Graph, k: int, vd: VarDict, j: Node, p: (Node, Node))
    requires ValidPair(target, p) && Covers(vd, target, graph) && j in graph.nodes
    ensures Inequalities(FiberBlock(target, graph, k, vd, j, p)) == if Unlinked(target, p, k) then 0 else 1
  {
    var cs := FiberBlock(target, graph, k, vd, j, p);
    if Linked(target, p.0, p.1, k) {
      var n := |cs| - 1;
      assert cs == cs[..n] + [cs[n]];
      ProductsOnly(cs[..n]);
      InequalitiesAppend(cs[..n], [cs[n]]);
    }
  }

  lemma {:induction false} FiberOverPairsCount(target: Graph, graph: Graph, k: int, vd: VarDict, j: Node, ps: seq<(Node, Node)>)
    requires forall p | p in ps :: ValidPair(target, p)
    requires Covers(vd, target, graph) && j in graph.nodes
    ensures Inequalities(FiberOverPairs(target, graph, k, vd, j, ps)) == LinkedCount(target, k, ps)
  {
    if ps != [] {
      FiberBlockCount(target, graph, k, vd, j, ps[0]);
      FiberOverPairsCount(target, graph, k, vd, j, ps[1..]);
      InequalitiesAppend(FiberBlock(target, graph, k, vd, j, ps[0]), FiberOverPairs(target, graph, k, vd, j, ps[1..]));
    }
  }

  lemma {:induction false} FiberOverNodesCount(target: Graph, graph: Graph, k: int, vd: VarDict, js: seq<Node>, ps: seq<(Node, Node)>)
    requires forall p | p in ps :: ValidPair(target, p)
    requires Covers(vd, target, graph) && forall j | j in js :: j in graph.nodes
    ensures Inequalities(FiberOverNodes(target, graph, k, vd, js, ps)) == |js| * LinkedCount(target, k, ps)
  {
    if js != [] {
      var n := LinkedCount(target, k, ps);
      assert js[0] in js;
      forall j | j in js[1..] ensures j in graph.nodes {
        assert j in js;
      }
      FiberOverPairsCount(target, graph, k, vd, js[0], ps);
      FiberOverNodesCount(target, graph, k, vd, js[1..], ps);
      InequalitiesAppend(FiberOverPairs(target, graph, k, vd, js[0], ps), FiberOverNodes(target, graph, k, vd, js[1..], ps));
      MulStep(|js|, |js[1..]|, n);
    }
  }

  /** A constraint of the fiber family is either an inequality or the definition
      of a gamma variable. */
  predicate FiberShaped(c: Constraint) {
    c.Linear? || c.v.Gamma?
  }

  lemma FiberBlockShape(target: Graph, graph: Graph, k: int, vd: VarDict, j: Node, p: (Node, Node))
    requires ValidPair(target, p) && Covers(vd, target, graph) && j in graph.nodes
    ensures forall c | c in FiberBlock(target, graph, k, vd, j, p) :: FiberShaped(c)
  {
    var cs := FiberBlock(target, graph, k, vd, j, p);
    if Linked(target, p.0, p.1, k) {
      var chains := AllSimplePaths(target, p.0, p.1, k);
      forall i | 0 <= i < |cs| ensures FiberShaped(cs[i]) {
        if i < |chains| {
          assert cs[i] == Product(Gamma(chains[i], j), GammaFactors(chains[i], j));
        }
      }
    }
  }

  lemma {:induction false} FiberOverPairsShape(target: Graph, graph: Graph, k: int, vd: VarDict, j: Node, ps: seq<(Node, Node)>)
    requires forall p | p in ps :: ValidPair(target, p)
    requires Covers(vd, target, graph) && j in graph.nodes
    ensures forall c | c in FiberOverPairs(target, graph, k, vd, j, ps) :: FiberShaped(c)
  {
    if ps != [] {
      FiberBlockShape(target, graph, k, vd, j, ps[0]);
      FiberOverPairsShape(target, graph, k, vd, j, ps[1..]);
    }
  }

  lemma {:induction false} FiberOverNodesShape(target: Graph, graph: Graph, k: int, vd: VarDict, js: seq<Node>, ps: seq<(Node, Node)>)
    requires forall p | p in ps :: ValidPair(target, p)
    requires Covers(vd, target, graph) && forall j | j in js :: j in graph.nodes
    ensures forall c | c in FiberOverNodes(target, graph, k, vd, js, ps) :: FiberShaped(c)
  {
    if js != [] {
      assert js[0] in js;
      forall j | j in js[1..] ensures j in graph.nodes {
        assert j in js;
      }
      FiberOverPairsShape(target, graph, k, vd, js[0], ps);
      FiberOverNodesShape(target, graph, k, vd, js[1..], ps);
    }
  }

  /** add_fiber_constraint emits one inequality per graph node and per visited pair
      joined by a chain; everything else it emits defines a gamma variable. */
  lemma FiberInequalityCount(graph: Graph, target: Graph, k: int, vd: VarDict, order: seq<Node>)
    requires IsOrderOf(order, target.nodes) && Covers(vd, target, graph)
    ensures Inequalities(AddFiberConstraint(graph, target, k, vd, order))
            == |graph.nodes| * LinkedCount(target, k, Pairs(order))
    ensures forall c | c in AddFiberConstraint(graph, target, k, vd, order) :: FiberShaped(c)
  {
    FiberOverNodesCount(target, graph, k, vd, graph.nodes, Pairs(order));
    FiberOverNodesShape(target, graph, k, vd, graph.nodes, Pairs(order));
  }
}

/** Finite undirected graphs with integer node labels, and the bounded simple-path
    enumeration (networkx's all_simple_paths with a cutoff) that the embedding
    builder runs on its `target` graph. */
module Paths {
  import opened Seqs

  type Node = int
  type Edge = (Node, Node)

  datatype RawGraph = RawGraph(nodes: seq<Node>, edges: seq<Edge>)

  /** A simple graph as a networkx Graph presents it: every node listed once, every
      edge between listed nodes, and no edge listed twice in either orientation. */
  predicate WellFormed(g: RawGraph) {
    && Distinct(g.nodes)
    && (forall e | e in g.edges :: e.0 in g.nodes && e.1 in g.nodes)
    && (forall i, j | 0 <= i < j < |g.edges| ::
          g.edges[i] != g.edges[j] && g.edges[i] != (g.edges[j].1, g.edges[j].0))
  }

  type Graph = g: RawGraph | WellFormed(g) witness RawGraph([], [])

  predicate Adjacent(g: RawGraph, u: Node, w: Node) {
    (u, w) in g.edges || (w, u) in g.edges
  }

  /** p walks along edges of g through pairwise distinct nodes of g. */
  predicate IsSimple(g: RawGraph, p: seq<Node>) {
    && Distinct(p)
    && (forall i | 0 <= i < |p| :: p[i] in g.nodes)
    && (forall i | 0 <= i < |p| - 1 :: Adjacent(g, p[i], p[i + 1]))
  }

  /** p is a chain: a simple path from x1 to x2 with at most k edges. */
  predicate IsChain(g: RawGraph, p: seq<Node>, x1: Node, x2: Node, k: int) {
    && 0 < |p| && p[0] == x1 && p[|p| - 1] == x2
    && |p| - 1 <= k
    && IsSimple(g, p)
  }

  /** Some chain of at most k edges joins x1 to x2. */
  ghost predicate Linked(g: RawGraph, x1: Node, x2: Node, k: int) {
    exists p :: IsChain(g, p, x1, x2, k)
  }

  /** The nodes among ws that can extend `path` by one edge: neighbours of its last node not yet on it. */
  function Successors(g: RawGraph, path: seq<Node>, ws: seq<Node>): (r: seq<Node>)
    requires |path| > 0
    ensures forall w :: w in r <==> w in ws && w !in path && Adjacent(g, path[|path| - 1], w)
    ensures Distinct(ws) ==> Distinct(r)
  {
    if ws == [] then []
    else
      (if ws[0] !in path && Adjacent(g, path[|path| - 1], ws[0]) then [ws[0]] else [])
      + Successors(g, path, ws[1..])
  }

  /** Depth-first extension of `path` towards x2 with at most `fuel` further edges;
      a path that reaches x2 is reported and not extended further. */
  function Extend(g: RawGraph, path: seq<Node>, x2: Node, fuel: nat): seq<seq<Node>>
    requires |path| > 0
    decreases fuel, 0
  {
    if path[|path| - 1] == x2 then [path]
    else if fuel == 0 then []
    else ExtendEach(g, path, Successors(g, path, g.nodes), x2, fuel - 1)
  }

  function ExtendEach(g: RawGraph, path: seq<Node>, ws: seq<Node>, x2: Node, fuel: nat): seq<seq<Node>>
    requires |path| > 0
    decreases fuel, |ws|
  {
    if ws == [] then []
    else Extend(g, path + [ws[0]], x2, fuel) + ExtendEach(g, path, ws[1..], x2, fuel)
  }

  lemma {:induction false} ExtendEachMember(g: RawGraph, path: seq<Node>, ws: seq<Node>, x2: Node, fuel: nat, q: seq<Node>)
    requires |path| > 0 && q in ExtendEach(g, path, ws, x2, fuel)
    ensures exists w :: w in ws && q in Extend(g, path + [w], x2, fuel)
    decreases |ws|
  {
    if q !in Extend(g, path + [ws[0]], x2, fuel) {
      ExtendEachMember(g, path, ws[1..], x2, fuel, q);
    }
  }

  lemma {:induction false} ExtendEachContains(g: RawGraph, path: seq<Node>, ws: seq<Node>, x2: Node, fuel: nat, w: Node, q: seq<Node>)
    requires |path| > 0 && w in ws && q in Extend(g, path + [w], x2, fuel)
    ensures q in ExtendEach(g, path, ws, x2, fuel)
    decreases |ws|
  {
    if ws[0] != w {
      ExtendEachContains(g, path, ws[1..], x2, fuel, w, q);
    }
  }

  /** A path reported without having reached x2 at `path` came through one successor w of `path`. */
  lemma Branch(g: RawGraph, path: seq<Node>, x2: Node, fuel: nat, q: seq<Node>) returns (w: Node)
    requires |path| > 0 && path[|path| - 1] != x2 && q in Extend(g, path, x2, fuel)
    ensures fuel > 0 && w in Successors(g, path, g.nodes) && q in Extend(g, path + [w], x2, fuel - 1)
  {
    ExtendEachMember(g, path, Successors(g, path, g.nodes), x2, fuel - 1, q);
    w :| w in Successors(g, path, g.nodes) && q in Extend(g, path + [w], x2, fuel - 1);
  }

  /** Everything the extension reports starts with `path`. */
  lemma {:induction false} ExtendPrefix(g: RawGraph, path: seq<Node>, x2: Node, fuel: nat, q: seq<Node>)
    requires |path| > 0 && q in Extend(g, path, x2, fuel)
    ensures |path| <= |q| && q[..|path|] == path
    decreases fuel
  {
    if path[|path| - 1] != x2 {
      var w := Branch(g, path, x2, fuel, q);
      ExtendPrefix(g, path + [w], x2, fuel - 1, q);
      PrefixOfLonger(q, path, w);
    }
  }

  /** Everything reported from a branching step continues `path` through one of the candidate nodes. */
  lemma ExtendEachNext(g: RawGraph, path: seq<Node>, ws: seq<Node>, x2: Node, fuel: nat)
    requires |path| > 0
    ensures forall q | q in ExtendEach(g, path, ws, x2, fuel) :: |path| < |q| && q[|path|] in ws
  {
    forall q | q in ExtendEach(g, path, ws, x2, fuel) ensures |path| < |q| && q[|path|] in ws {
      ExtendEachMember(g, path, ws, x2, fuel, q);
      var w :| w in ws && q in Extend(g, path + [w], x2, fuel);
      ExtendPrefix(g, path + [w], x2, fuel, q);
      assert q[|path|] == (q[..|path| + 1])[|path|] == w;
    }
  }

  /** The extension never reports the same path twice. */
  lemma {:induction false} ExtendDistinct(g: RawGraph, path: seq<Node>, x2: Node, fuel: nat)
    requires |path| > 0 && Distinct(g.nodes)
    ensures Distinct(Extend(g, path, x2, fuel))
    decreases fuel, 0
  {
    if path[|path| - 1] != x2 && fuel > 0 {
      ExtendEachDistinct(g, path, Successors(g, path, g.nodes), x2, fuel - 1);
    }
  }

  lemma {:induction false} ExtendEachDistinct(g: RawGraph, path: seq<Node>, ws: seq<Node>, x2: Node, fuel: nat)
    requires |path| > 0 && Distinct(g.nodes) && Distinct(ws)
    ensures Distinct(ExtendEach(g, path, ws, x2, fuel))
    decreases fuel, |ws|
  {
    if ws != [] {
      var here := Extend(g, path + [ws[0]], x2, fuel);
      var rest := ExtendEach(g, path, ws[1..], x2, fuel);
      ExtendDistinct(g, path + [ws[0]], x2, fuel);
      ExtendEachDistinct(g, path, ws[1..], x2, fuel);
      forall q | q in here ensures q !in rest {
        ExtendPrefix(g, path + [ws[0]], x2, fuel, q);
        assert q[|path|] == (q[..|path| + 1])[|path|] == ws[0];
        ExtendEachNext(g, path, ws[1..], x2, fuel);
      }
      DistinctConcat(here, rest);
    }
  }

  /** Everything the extension reports is a simple path that continues `path`, ends at x2 and uses at most `fuel` more edges. */
  lemma {:induction false} ExtendSound(g: RawGraph, path: seq<Node>, x2: Node, fuel: nat, q: seq<Node>)
    requires |path| > 0 && IsSimple(g, path)
    requires q in Extend(g, path, x2, fuel)
    ensures |path| <= |q| <= |path| + fuel && q[..|path|] == path
    ensures q[|q| - 1] == x2 && IsSimple(g, q)
    decreases fuel
  {
    if path[|path| - 1] != x2 {
      var w := SoundStep(g, path, x2, fuel, q);
      ExtendSound(g, path + [w], x2, fuel - 1, q);
      PrefixBack(q, path, w, fuel);
    }
  }

  /** A path reported without having reached x2 came through a successor w that keeps the path simple. */
  lemma SoundStep(g: RawGraph, path: seq<Node>, x2: Node, fuel: nat, q: seq<Node>) returns (w: Node)
    requires |path| > 0 && IsSimple(g, path) && path[|path| - 1] != x2
    requires q in Extend(g, path, x2, fuel)
    ensures fuel > 0 && |path + [w]| > 0 && IsSimple(g, path + [w])
    ensures q in Extend(g, path + [w], x2, fuel - 1)
  {
    w := Branch(g, path, x2, fuel, q);
    SimpleStep(g, path, w);
  }

  /** What ExtendSound states for path + [w] with one edge less gives its bounds and prefix for `path`. */
  lemma PrefixBack(q: seq<Node>, path: seq<Node>, w: Node, fuel: nat)
    requires fuel > 0
    requires |path + [w]| <= |q| <= |path + [w]| + (fuel - 1) && q[..|path + [w]|] == path + [w]
    ensures |path| <= |q| <= |path| + fuel && q[..|path|] == path
  {
    PrefixOfPrefix(q, path, w);
  }

  lemma SimpleStep(g: RawGraph, path: seq<Node>, w: Node)
    requires |path| > 0 && IsSimple(g, path)
    requires w in g.nodes && w !in path && Adjacent(g, path[|path| - 1], w)
    ensures IsSimple(g, path + [w])
  {
    var p := path + [w];
    forall i | 0 <= i < |p| - 1 ensures Adjacent(g, p[i], p[i + 1]) {
      if i < |path| - 1 {
        assert p[i] == path[i] && p[i + 1] == path[i + 1];
      }
    }
  }

  lemma PrefixOfLonger(q: seq<Node>, path: seq<Node>, w: Node)
    requires |path + [w]| <= |q| && q[..|path + [w]|] == path + [w]
    ensures |path| <= |q| && q[..|path|] == path
  {
    PrefixOfPrefix(q, path, w);
  }

  lemma PrefixOfPrefix(q: seq<Node>, path: seq<Node>, w: Node)
    requires |path| + 1 <= |q| && q[..|path| + 1] == path + [w]
    ensures q[..|path|] == path
  {
    assert q[..|path|] == (q[..|path| + 1])[..|path|];
  }

  /** Every simple path that continues `path` to x2 within `fuel` more edges is reported. */
  lemma {:induction false} ExtendComplete(g: RawGraph, path: seq<Node>, x2: Node, fuel: nat, q: seq<Node>)
    requires 0 < |path| <= |q| && q[..|path|] == path
    requires IsSimple(g, q) && q[|q| - 1] == x2 && |q| <= |path| + fuel
    ensures q in Extend(g, path, x2, fuel)
    decreases fuel
  {
    if path[|path| - 1] == x2 {
      PrefixEndingAtLast(path, q);
    } else {
      var w := NextOnPath(g, path, x2, fuel, q);
      ExtendComplete(g, path + [w], x2, fuel - 1, q);
      ExtendVia(g, path, x2, fuel, w, q);
    }
  }

  /** A repetition-free q that continues `path` and ends where `path` ends is `path`. */
  lemma PrefixEndingAtLast(path: seq<Node>, q: seq<Node>)
    requires 0 < |path| <= |q| && q[..|path|] == path
    requires Distinct(q) && q[|q| - 1] == path[|path| - 1]
    ensures q == path
  {
    assert q[|path| - 1] == path[|path| - 1];
    DistinctLast(q, |path| - 1);
  }

  /** A path reported after stepping to a successor w is reported by the extension of `path` itself. */
  lemma ExtendVia(g: RawGraph, path: seq<Node>, x2: Node, fuel: nat, w: Node, q: seq<Node>)
    requires |path| > 0 && path[|path| - 1] != x2 && fuel > 0
    requires w in Successors(g, path, g.nodes) && q in Extend(g, path + [w], x2, fuel - 1)
    ensures q in Extend(g, path, x2, fuel)
  {
    ExtendEachContains(g, path, Successors(g, path, g.nodes), x2, fuel - 1, w, q);
  }

  /** The node w after `path` on a simple path q that continues it to x2 is one of its
      successors, and path + [w] meets the conditions of ExtendComplete with one edge less. */
  lemma NextOnPath(g: RawGraph, path: seq<Node>, x2: Node, fuel: nat, q: seq<Node>) returns (w: Node)
    requires 0 < |path| <= |q| && q[..|path|] == path
    requires IsSimple(g, q) && q[|q| - 1] == x2 && |q| <= |path| + fuel
    requires path[|path| - 1] != x2
    ensures fuel > 0 && w in Successors(g, path, g.nodes)
    ensures 0 < |path + [w]| <= |q| && q[..|path + [w]|] == path + [w] && |q| <= |path + [w]| + (fuel - 1)
  {
    assert q[|path| - 1] == path[|path| - 1];
    assert |path| < |q|;
    w := q[|path|];
    assert Adjacent(g, q[|path| - 1], q[|path|]);
    assert w !in path by {
      forall i | 0 <= i < |path| ensures path[i] != w {
        assert path[i] == q[i];
      }
    }
    assert q[..|path| + 1] == path + [w];
  }

  /** The chains from x1 to x2 with at most k edges, each listed once: the list of
      simple paths with a cutoff of k edges that the embedding builder enumerates. */
  function AllSimplePaths(g: Graph, x1: Node, x2: Node, k: int): (chains: seq<seq<Node>>)
    requires x1 in g.nodes && x2 in g.nodes && x1 != x2
    ensures forall p :: p in chains <==> IsChain(g, p, x1, x2, k)
    ensures Distinct(chains)
  {
    var fuel: nat := if k < 0 then 0 else k;
    ExtendDistinct(g, [x1], x2, fuel);
    assert IsSimple(g, [x1]);
    assert forall p | p in Extend(g, [x1], x2, fuel) :: IsChain(g, p, x1, x2, k) by {
      forall p | p in Extend(g, [x1], x2, fuel) ensures IsChain(g, p, x1, x2, k) {
        ExtendSound(g, [x1], x2, fuel, p);
        assert p[0] == p[..1][0];
      }
    }
    assert forall p | IsChain(g, p, x1, x2, k) :: p in Extend(g, [x1], x2, fuel) by {
      forall p | IsChain(g, p, x1, x2, k) ensures p in Extend(g, [x1], x2, fuel) {
        assert p[..1] == [x1];
        ExtendComplete(g, [x1], x2, fuel, p);
      }
    }
    Extend(g, [x1], x2, fuel)
  }

  /** A chain read backwards is a chain between the same nodes in the other direction. */
  lemma ChainReverse(g: Graph, p: seq<Node>, x1: Node, x2: Node, k: int)
    requires IsChain(g, p, x1, x2, k)
    ensures IsChain(g, Reverse(p), x2, x1, k)
  {
    var r := Reverse(p);
    forall i | 0 <= i < |r| - 1 ensures Adjacent(g, r[i], r[i + 1]) {
      assert r[i + 1] == p[|p| - 2 - i] && r[i] == p[|p| - 2 - i + 1];
    }
  }

  /** Being joined by a chain of at most k edges does not depend on the direction. */
  lemma LinkedSymmetric(g: Graph, x1: Node, x2: Node, k: int)
    ensures Linked(g, x1, x2, k) <==> Linked(g, x2, x1, k)
  {
    if Linked(g, x1, x2, k) {
      var p :| IsChain(g, p, x1, x2, k);
      ChainReverse(g, p, x1, x2, k);
    }
    if Linked(g, x2, x1, k) {
      var p :| IsChain(g, p, x2, x1, k);
      ChainReverse(g, p, x2, x1, k);
    }
  }
}

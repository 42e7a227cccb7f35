/** The emitted 0/1 integer program as data: variables, linear (in)equalities and
    equality-to-product definitions, and what it means for a 0/1 assignment to
    satisfy them. */
module Constraints {
  import opened Paths

  /** The binary variables the builder creates. */
  datatype Var =
    | X(v: Node, w: Node)                                // target node v lies in the fiber of graph node w
    | DeltaP(x1: Node, x2: Node, y1: Node, y2: Node)     // x[x1,y1] * x[x2,y2]
    | DeltaO(x1: Node, x2: Node, y1: Node, y2: Node)     // x[x1,y2] * x[x2,y1]
    | Gamma(chain: seq<Node>, j: Node)                   // product of x[c,j] over the chain's interior

  datatype Cmp = Le | Ge

  datatype Constraint =
      /** (sum of terms) + offset  cmp  bound */
    | Linear(terms: seq<Var>, offset: int, cmp: Cmp, bound: int)
      /** v == product of the factors (an empty product is 1) */
    | Product(v: Var, factors: seq<Var>)

  /** A 0/1 assignment: true stands for 1. */
  type Assignment = Var -> bool

  function Val(a: Assignment, v: Var): int {
    if a(v) then 1 else 0
  }

  /** Number of terms set to 1, counted with repetition. */
  function Sum(a: Assignment, vs: seq<Var>): (s: int)
    ensures 0 <= s <= |vs|
  {
    if vs == [] then 0 else Val(a, vs[0]) + Sum(a, vs[1..])
  }

  predicate AllSet(a: Assignment, vs: seq<Var>) {
    forall v | v in vs :: a(v)
  }

  /** The product of 0/1 values is 1 exactly when every factor is 1. */
  function Prod(a: Assignment, vs: seq<Var>): (p: int)
    ensures p == (if AllSet(a, vs) then 1 else 0)
  {
    if vs == [] then 1 else Val(a, vs[0]) * Prod(a, vs[1..])
  }

  predicate Holds(a: Assignment, c: Constraint) {
    match c
    case Linear(terms, offset, cmp, bound) =>
      if cmp == Le then Sum(a, terms) + offset <= bound else Sum(a, terms) + offset >= bound
    case Product(v, factors) => Val(a, v) == Prod(a, factors)
  }

  /** a satisfies every constraint of cs. */
  predicate Sat(a: Assignment, cs: seq<Constraint>) {
    forall c | c in cs :: Holds(a, c)
  }

  lemma {:induction false} SumAppend(a: Assignment, s: seq<Var>, t: seq<Var>)
    ensures Sum(a, s + t) == Sum(a, s) + Sum(a, t)
  {
    if s == [] {
      assert s + t == t;
    } else {
      assert (s + t)[1..] == s[1..] + t;
      SumAppend(a, s[1..], t);
    }
  }

  lemma SatUpToLast(a: Assignment, cs: seq<Constraint>)
    requires cs != [] && Holds(a, cs[|cs| - 1])
    requires forall i | 0 <= i < |cs| - 1 :: Holds(a, cs[i])
    ensures Sat(a, cs)
  {
    forall c | c in cs ensures Holds(a, c) {
      var i :| 0 <= i < |cs| && cs[i] == c;
    }
  }

  lemma SatAppend(a: Assignment, cs: seq<Constraint>, ds: seq<Constraint>)
    ensures Sat(a, cs + ds) <==> Sat(a, cs) && Sat(a, ds)
  {
  }
}

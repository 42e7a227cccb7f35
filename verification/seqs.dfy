/** Sequence helpers shared by the embedding builder and the job-shop graph generators. */
module Seqs {

  /** No element occurs twice. */
  predicate Distinct<T(==)>(s: seq<T>) {
    forall i, j | 0 <= i < j < |s| :: s[i] != s[j]
  }

  /** In a sequence without repetitions, the only position holding the last element is the last one. */
  lemma DistinctLast<T>(s: seq<T>, i: int)
    requires Distinct(s) && 0 <= i < |s| && s[i] == s[|s| - 1]
    ensures i == |s| - 1
  {
  }

  /** Two repetition-free sequences with no common element concatenate to a repetition-free one. */
  lemma DistinctConcat<T>(a: seq<T>, b: seq<T>)
    requires Distinct(a) && Distinct(b)
    requires forall x | x in a :: x !in b
    ensures Distinct(a + b)
  {
    var c := a + b;
    forall i, j | 0 <= i < j < |c| ensures c[i] != c[j] {
      if i < |a| && |a| <= j {
        assert c[i] in a && c[j] == b[j - |a|];
      }
    }
  }

  /** One more row of b: the step a nested loop's length count needs. */
  lemma MulStep(a: int, a': int, b: int)
    requires a == a' + 1
    ensures a * b == b + a' * b
  {
  }

  /** The concatenation f(lo) + f(lo + 1) + ... + f(hi - 1): the list built by a loop
      over lo .. hi - 1 whose iteration i appends f(i). */
  function FlatRange<T(!new)>(lo: int, hi: int, f: int --> seq<T>): (r: seq<T>)
    requires forall i | lo <= i < hi :: f.requires(i)
    ensures forall x :: x in r <==> exists i :: lo <= i < hi && x in f(i)
    decreases hi - lo
  {
    if lo >= hi then [] else f(lo) + FlatRange(lo + 1, hi, f)
  }

  /** The elements of s that satisfy p, in their original order. */
  function Filter<T(!new)>(s: seq<T>, p: T -> bool): (r: seq<T>)
    ensures |r| <= |s|
    ensures forall x :: x in r <==> x in s && p(x)
    ensures Distinct(s) ==> Distinct(r)
  {
    if s == [] then []
    else (if p(s[0]) then [s[0]] else []) + Filter(s[1..], p)
  }

  /** s read backwards. */
  function Reverse<T>(s: seq<T>): (r: seq<T>)
    ensures |r| == |s|
    ensures forall i | 0 <= i < |s| :: r[i] == s[|s| - 1 - i]
  {
    seq(|s|, i requires 0 <= i < |s| => s[|s| - 1 - i])
  }

  /** FlatRange has no repetitions when no piece has any and no two pieces share an element. */
  lemma {:induction false} FlatRangeDistinct<T(!new)>(lo: int, hi: int, f: int --> seq<T>)
    requires forall i | lo <= i < hi :: f.requires(i)
    requires forall i | lo <= i < hi :: Distinct(f(i))
    requires forall i, i', x | lo <= i < i' < hi && x in f(i) :: x !in f(i')
    ensures Distinct(FlatRange(lo, hi, f))
    decreases hi - lo
  {
    if lo < hi {
      FlatRangeDistinct(lo + 1, hi, f);
      DistinctConcat(f(lo), FlatRange(lo + 1, hi, f));
    }
  }

  /** When every element of piece i carries i as its key, an element lies in
      FlatRange exactly when its key is in range and it lies in the piece of its
      key, and FlatRange has no repetitions when no piece has any. */
  lemma FlatRangeKeyed<T(!new)>(lo: int, hi: int, f: int --> seq<T>, key: T -> int)
    requires forall i | lo <= i < hi :: f.requires(i)
    requires forall i, x | lo <= i < hi && x in f(i) :: key(x) == i
    ensures forall x :: x in FlatRange(lo, hi, f) <==> lo <= key(x) < hi && x in f(key(x))
    ensures (forall i | lo <= i < hi :: Distinct(f(i))) ==> Distinct(FlatRange(lo, hi, f))
  {
    forall x | x in FlatRange(lo, hi, f) ensures lo <= key(x) < hi && x in f(key(x)) {
      var i :| lo <= i < hi && x in f(i);
    }
    if forall i | lo <= i < hi :: Distinct(f(i)) {
      forall i, i', x | lo <= i < i' < hi && x in f(i) ensures x !in f(i') {
        assert key(x) == i;
      }
      FlatRangeDistinct(lo, hi, f);
    }
  }

  /** Removal of one element from a list: drops the first occurrence of x. */
  function RemoveFirst<T(==)>(s: seq<T>, x: T): (r: seq<T>)
    requires x in s
    ensures |r| == |s| - 1
    ensures multiset(r) == multiset(s) - multiset{x}
    ensures forall y | y in s && y != x :: y in r
  {
    assert s == [s[0]] + s[1..];
    if s[0] == x then s[1..] else [s[0]] + RemoveFirst(s[1..], x)
  }

  datatype Option<T> = None | Some(value: T)

  /** Removes the elements of rs from s one at a time, each at its first occurrence; None when
      some r is no longer present, where the list removal raises. */
  function RemoveEach<T(==)>(s: seq<T>, rs: seq<T>): (r: Option<seq<T>>)
    ensures r.Some? ==> |r.value| == |s| - |rs|
    decreases |rs|
  {
    if rs == [] then Some(s)
    else if rs[0] !in s then None
    else RemoveEach(RemoveFirst(s, rs[0]), rs[1..])
  }

  lemma {:induction false} RemoveEachCons<T>(x: T, s: seq<T>, rs: seq<T>)
    requires x !in rs
    ensures RemoveEach([x] + s, rs) == match RemoveEach(s, rs)
                                      case None => None
                                      case Some(t) => Some([x] + t)
    decreases |rs|
  {
    if rs != [] {
      if rs[0] in s {
        assert RemoveFirst([x] + s, rs[0]) == [x] + RemoveFirst(s, rs[0]) by {
          assert ([x] + s)[1..] == s;
        }
        RemoveEachCons(x, RemoveFirst(s, rs[0]), rs[1..]);
      }
    }
  }

  /** Removing, one at a time, every element of s that satisfies p (listed with repetitions, as
      the loops that collect them do) leaves exactly the elements that satisfy q, the negation
      of p, in order; no `remove` ever misses. */
  lemma {:induction false} RemoveEachFiltered<T(!new)>(s: seq<T>, p: T -> bool, q: T -> bool)
    requires forall x :: q(x) == !p(x)
    ensures RemoveEach(s, Filter(s, p)) == Some(Filter(s, q))
  {
    if s != [] {
      RemoveEachFiltered(s[1..], p, q);
      if p(s[0]) {
        RemoveMatchingHead(s, p, q);
      } else {
        assert s == [s[0]] + s[1..];
        KeepHead(s[0], s[1..], p, q);
      }
    }
  }

  lemma RemoveMatchingHead<T(!new)>(s: seq<T>, p: T -> bool, q: T -> bool)
    requires s != [] && p(s[0]) && !q(s[0])
    ensures RemoveEach(s, Filter(s, p)) == RemoveEach(s[1..], Filter(s[1..], p))
    ensures Filter(s, q) == Filter(s[1..], q)
  {
    assert Filter(s, p) == [s[0]] + Filter(s[1..], p);
    assert RemoveFirst(s, s[0]) == s[1..];
  }

  lemma KeepHead<T(!new)>(h: T, t: seq<T>, p: T -> bool, q: T -> bool)
    requires !p(h) && q(h)
    requires RemoveEach(t, Filter(t, p)) == Some(Filter(t, q))
    ensures RemoveEach([h] + t, Filter([h] + t, p)) == Some(Filter([h] + t, q))
  {
    var s := [h] + t;
    assert s[0] == h && s[1..] == t;
    assert Filter(s, p) == Filter(t, p);
    assert Filter(s, q) == [h] + Filter(t, q);
    RemoveEachCons(h, t, Filter(t, p));
  }

  /** Removing distinct elements that all occur in s never misses. */
  lemma {:induction false} RemoveEachDistinct<T>(s: seq<T>, rs: seq<T>)
    requires Distinct(rs) && forall x | x in rs :: x in s
    ensures RemoveEach(s, rs).Some?
    decreases |rs|
  {
    if rs != [] {
      var s' := RemoveFirst(s, rs[0]);
      forall x | x in rs[1..] ensures x in s' {
        assert x != rs[0];
      }
      RemoveEachDistinct(s', rs[1..]);
    }
  }

  /** Appends to acc each element of s that satisfies p and is not yet in acc: the elements
      satisfying p, each once, in order of first occurrence. */
  function CollectOnce<T(!new,==)>(s: seq<T>, p: T -> bool, acc: seq<T>): (r: seq<T>)
    ensures forall x :: x in r <==> x in acc || (x in s && p(x))
    ensures Distinct(acc) ==> Distinct(r)
    decreases |s|
  {
    if s == [] then acc
    else if p(s[0]) && s[0] !in acc then
      DistinctSnoc(acc, s[0]);
      CollectOnce(s[1..], p, acc + [s[0]])
    else CollectOnce(s[1..], p, acc)
  }

  lemma DistinctSnoc<T>(s: seq<T>, x: T)
    requires x !in s
    ensures Distinct(s) ==> Distinct(s + [x])
  {
    if Distinct(s) {
      DistinctConcat(s, [x]);
    }
  }

  /** On a sequence without repetitions, collecting once is plain filtering. */
  lemma {:induction false} CollectOnceDistinct<T(!new)>(s: seq<T>, p: T -> bool, acc: seq<T>)
    requires Distinct(s) && forall x | x in s :: x !in acc
    ensures CollectOnce(s, p, acc) == acc + Filter(s, p)
    decreases |s|
  {
    if s == [] {
      assert acc + [] == acc;
    } else if p(s[0]) {
      CollectOnceTake(s, p, acc);
    } else {
      assert Filter(s, p) == Filter(s[1..], p);
      assert CollectOnce(s, p, acc) == CollectOnce(s[1..], p, acc);
      CollectOnceDistinct(s[1..], p, acc);
    }
  }

  lemma {:induction false} CollectOnceTake<T(!new)>(s: seq<T>, p: T -> bool, acc: seq<T>)
    requires Distinct(s) && forall x | x in s :: x !in acc
    requires s != [] && p(s[0])
    ensures CollectOnce(s, p, acc) == acc + Filter(s, p)
    decreases |s|, 0
  {
    var h, t := s[0], s[1..];
    assert h in s;
    assert CollectOnce(s, p, acc) == CollectOnce(t, p, acc + [h]);
    forall x | x in t ensures x !in acc + [h] {
      assert x in s;
      var j :| 0 <= j < |t| && t[j] == x;
      assert s[j + 1] == x;
    }
    assert Distinct(t);
    CollectOnceDistinct(t, p, acc + [h]);
    assert Filter(s, p) == [h] + Filter(t, p);
    assert acc + [h] + Filter(t, p) == acc + ([h] + Filter(t, p));
  }

  lemma {:induction false} FilterConcat<T(!new)>(a: seq<T>, b: seq<T>, p: T -> bool)
    ensures Filter(a + b, p) == Filter(a, p) + Filter(b, p)
  {
    if a == [] {
      assert a + b == b;
    } else {
      assert (a + b)[0] == a[0] && (a + b)[1..] == a[1..] + b;
      FilterConcat(a[1..], b, p);
    }
  }

  /** Filtering only depends on the predicate's values on the sequence's own elements. */
  lemma {:induction false} FilterCongruent<T(!new)>(s: seq<T>, p: T -> bool, q: T -> bool)
    requires forall x | x in s :: p(x) == q(x)
    ensures Filter(s, p) == Filter(s, q)
  {
    if s != [] {
      assert forall x | x in s[1..] :: x in s;
      FilterCongruent(s[1..], p, q);
    }
  }

  lemma DistinctParts<T>(a: seq<T>, b: seq<T>)
    requires Distinct(a + b)
    ensures Distinct(a) && Distinct(b)
    ensures forall x | x in a :: x !in b
  {
    var c := a + b;
    forall i, j | 0 <= i < j < |a| ensures a[i] != a[j] {
      assert a[i] == c[i] && a[j] == c[j];
    }
    forall i, j | 0 <= i < j < |b| ensures b[i] != b[j] {
      assert b[i] == c[|a| + i] && b[j] == c[|a| + j];
    }
    forall x | x in a ensures x !in b {
      NotDistinctConcat(a, b, x);
    }
  }

  /** A common element of a and b repeats in a + b. */
  lemma NotDistinctConcat<T>(a: seq<T>, b: seq<T>, x: T)
    ensures x in a && x in b ==> !Distinct(a + b)
  {
    if x in a && x in b {
      var i :| 0 <= i < |a| && a[i] == x;
      var j :| 0 <= j < |b| && b[j] == x;
      assert (a + b)[i] == (a + b)[|a| + j];
    }
  }

  lemma NotDistinctSuffix<T>(a: seq<T>, b: seq<T>)
    requires !Distinct(b)
    ensures !Distinct(a + b)
  {
    var i, j :| 0 <= i < j < |b| && b[i] == b[j];
    assert (a + b)[|a| + i] == (a + b)[|a| + j];
  }

  /** An element in two different pieces makes FlatRange repeat it. */
  lemma {:induction false} FlatRangeRepeats<T(!new)>(lo: int, hi: int, f: int --> seq<T>, i: int, i': int, x: T)
    requires forall k | lo <= k < hi :: f.requires(k)
    requires lo <= i < i' < hi && x in f(i) && x in f(i')
    ensures !Distinct(FlatRange(lo, hi, f))
    decreases hi - lo
  {
    if i == lo {
      assert x in FlatRange(lo + 1, hi, f);
      NotDistinctConcat(f(lo), FlatRange(lo + 1, hi, f), x);
    } else {
      FlatRangeRepeats(lo + 1, hi, f, i, i', x);
      NotDistinctSuffix(f(lo), FlatRange(lo + 1, hi, f));
    }
  }

  /** Every piece of a FlatRange without repetitions has none either. */
  lemma {:induction false} FlatRangePieceDistinct<T(!new)>(lo: int, hi: int, f: int --> seq<T>, i: int)
    requires forall k | lo <= k < hi :: f.requires(k)
    requires lo <= i < hi && Distinct(FlatRange(lo, hi, f))
    ensures Distinct(f(i))
    decreases hi - lo
  {
    DistinctParts(f(lo), FlatRange(lo + 1, hi, f));
    if i != lo {
      FlatRangePieceDistinct(lo + 1, hi, f, i);
    }
  }

  lemma {:induction false} FilterKeepsAll<T(!new)>(s: seq<T>, p: T -> bool)
    requires forall x | x in s :: p(x)
    ensures Filter(s, p) == s
  {
    if s != [] {
      assert forall x | x in s[1..] :: x in s;
      FilterKeepsAll(s[1..], p);
    }
  }

  lemma {:induction false} FilterDropsAll<T(!new)>(s: seq<T>, p: T -> bool)
    requires forall x | x in s :: !p(x)
    ensures Filter(s, p) == []
  {
    if s != [] {
      assert forall x | x in s[1..] :: x in s;
      FilterDropsAll(s[1..], p);
    }
  }
}

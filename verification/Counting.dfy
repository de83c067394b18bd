/** Finite counting: ranges, distinct elements, products, and the pigeonhole principle. */
module Counting {

  lemma {:induction false} SubsetIsSmaller<T>(a: set<T>, b: set<T>)
    requires a <= b
    ensures |a| <= |b| && (|a| == |b| ==> a == b)
  {
    if x :| x in a {
      SubsetIsSmaller(a - {x}, b - {x});
      assert a == (a - {x}) + {x} && b == (b - {x}) + {x};
    }
  }

  predicate InRange(x: int, lo: int, hi: int) {
    lo <= x < hi
  }

  function Range(lo: int, hi: int): set<int> {
    set x | lo <= x < hi && InRange(x, lo, hi)
  }

  lemma {:induction false} CountRange(lo: int, hi: int)
    ensures |Range(lo, hi)| == if lo <= hi then hi - lo else 0
    decreases hi - lo
  {
    if hi <= lo {
      assert Range(lo, hi) == {};
    } else {
      CountRange(lo, hi - 1);
      assert Range(lo, hi) == Range(lo, hi - 1) + {hi - 1};
    }
  }

  ghost predicate Distinct<T>(xs: seq<T>) {
    forall i, j :: 0 <= i < j < |xs| ==> xs[i] != xs[j]
  }

  ghost function Elements<T>(xs: seq<T>): set<T> {
    set x | x in xs
  }

  lemma {:induction false} CountElements<T>(xs: seq<T>)
    ensures |Elements(xs)| <= |xs|
    ensures Distinct(xs) ==> |Elements(xs)| == |xs|
  {
    if xs != [] {
      var init, last := xs[..|xs| - 1], xs[|xs| - 1];
      CountElements(init);
      assert xs == init + [last];
      assert Elements(xs) == Elements(init) + {last};
    }
  }

  /** The number of positions that hold an element for another time. */
  ghost function Repeats<T>(xs: seq<T>): nat {
    if xs == [] then 0
    else
      var init, last := xs[..|xs| - 1], xs[|xs| - 1];
      Repeats(init) + if last in init then 1 else 0
  }

  lemma DistinctSnoc<T>(init: seq<T>, last: T)
    ensures Distinct(init + [last]) <==> Distinct(init) && last !in init
  {
    var xs := init + [last];
    assert forall i :: 0 <= i < |init| ==> xs[i] == init[i];
    if last in init {
      var i :| 0 <= i < |init| && init[i] == last;
      assert xs[i] == xs[|init|];
    }
  }

  lemma {:induction false} RepeatsCount<T>(xs: seq<T>)
    ensures |Elements(xs)| + Repeats(xs) == |xs|
    ensures Repeats(xs) == 0 <==> Distinct(xs)
  {
    if xs != [] {
      var init, last := xs[..|xs| - 1], xs[|xs| - 1];
      RepeatsCount(init);
      DistinctSnoc(init, last);
      assert xs == init + [last];
      assert Elements(xs) == Elements(init) + {last};
    }
  }

  /** More distinct candidates than taken values leave some candidate free. */
  lemma Pigeonhole<T>(candidates: seq<T>, taken: seq<T>) returns (free: nat)
    requires Distinct(candidates) && |candidates| > |taken|
    ensures free < |candidates| && candidates[free] !in taken
  {
    CountElements(candidates);
    CountElements(taken);
    if Elements(candidates) <= Elements(taken) {
      SubsetIsSmaller(Elements(candidates), Elements(taken));
      assert false;
    }
    var x :| x in Elements(candidates) && x !in Elements(taken);
    free :| 0 <= free < |candidates| && candidates[free] == x;
  }

  /** A list of `n` distinct indices below `n` holds them all. */
  lemma Surjective(at: seq<int>)
    requires Distinct(at) && forall i :: 0 <= i < |at| ==> 0 <= at[i] < |at|
    ensures forall x :: 0 <= x < |at| ==> x in at
  {
    CountElements(at);
    CountRange(0, |at|);
    SubsetIsSmaller(Elements(at), Range(0, |at|));
    forall x | 0 <= x < |at|
      ensures x in at
    {
      assert x in Range(0, |at|);
      assert x in Elements(at);
    }
  }

  ghost function Product<A, B>(a: set<A>, b: set<B>): set<(A, B)> {
    set x, y | x in a && y in b :: (x, y)
  }

  lemma {:induction false} RowCount<A, B>(x: A, b: set<B>)
    ensures |Product({x}, b)| == |b|
  {
    if b == {} {
      assert Product({x}, b) == {};
    } else {
      var y :| y in b;
      RowCount(x, b - {y});
      assert Product({x}, b) == Product({x}, b - {y}) + {(x, y)};
    }
  }

  lemma OneMore(m: int, n: int)
    ensures m * n == (m - 1) * n + n
  {
  }

  lemma {:induction false} ProductCount<A, B>(a: set<A>, b: set<B>)
    ensures |Product(a, b)| == |a| * |b|
  {
    if a == {} {
      assert Product(a, b) == {};
    } else {
      var x :| x in a;
      ProductCount(a - {x}, b);
      RowCount(x, b);
      assert Product(a, b) == Product(a - {x}, b) + Product({x}, b);
      assert Product(a - {x}, b) !! Product({x}, b);
      OneMore(|a|, |b|);
    }
  }
}

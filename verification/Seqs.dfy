/** Sequence operations the generators are built from, with the laws their proofs share. */
module Seqs {

  datatype Option<+T> = None | Some(value: T)

  /** `Array.prototype.filter`. */
  function Filter<T(!new)>(xs: seq<T>, p: T -> bool): (r: seq<T>)
    ensures |r| <= |xs|
    ensures forall x :: x in r <==> x in xs && p(x)
  {
    if xs == [] then []
    else (if p(xs[0]) then [xs[0]] else []) + Filter(xs[1..], p)
  }

  /** `Array.prototype.map`. */
  function Map<T, U>(xs: seq<T>, f: T -> U): (r: seq<U>)
    ensures |r| == |xs|
    ensures forall i :: 0 <= i < |xs| ==> r[i] == f(xs[i])
  {
    if xs == [] then [] else [f(xs[0])] + Map(xs[1..], f)
  }

  ghost predicate Distinct<T>(xs: seq<T>) {
    forall i, j :: 0 <= i < j < |xs| ==> xs[i] != xs[j]
  }

  /** `xs` occurs inside `ys`, in order, with other elements possibly in between. */
  ghost predicate Subsequence<T>(xs: seq<T>, ys: seq<T>) {
    if xs == [] then true
    else if ys == [] then false
    else (xs[0] == ys[0] && Subsequence(xs[1..], ys[1..])) || Subsequence(xs, ys[1..])
  }

  /** `zs` is an order-preserving merge of `xs` and `ys`. */
  ghost predicate Interleaves<T>(xs: seq<T>, ys: seq<T>, zs: seq<T>) {
    if zs == [] then xs == [] && ys == []
    else
      || (xs != [] && xs[0] == zs[0] && Interleaves(xs[1..], ys, zs[1..]))
      || (ys != [] && ys[0] == zs[0] && Interleaves(xs, ys[1..], zs[1..]))
  }

  lemma {:induction false} FilterAppend<T(!new)>(xs: seq<T>, ys: seq<T>, p: T -> bool)
    ensures Filter(xs + ys, p) == Filter(xs, p) + Filter(ys, p)
  {
    if xs == [] {
      assert xs + ys == ys;
    } else {
      assert (xs + ys)[1..] == xs[1..] + ys;
      FilterAppend(xs[1..], ys, p);
    }
  }

  lemma {:induction false} DistinctSnoc<T>(xs: seq<T>, x: T)
    requires Distinct(xs) && x !in xs
    ensures Distinct(xs + [x])
  {
  }

  lemma {:induction false} DistinctInit<T>(a: seq<T>, b: seq<T>)
    requires Distinct(a + b)
    ensures Distinct(a)
  {
    forall i, j | 0 <= i < j < |a|
      ensures a[i] != a[j]
    {
      assert (a + b)[i] == a[i] && (a + b)[j] == a[j];
    }
  }

  lemma {:induction false} FilterOne<T(!new)>(x: T, p: T -> bool)
    ensures Filter([x], p) == if p(x) then [x] else []
  {
  }

  lemma {:induction false} Associative<T>(a: seq<T>, b: seq<T>, c: seq<T>)
    ensures a + (b + c) == (a + b) + c
  {
  }

  lemma {:induction false} FilterTail<T(!new)>(xs: seq<T>, p: T -> bool)
    requires xs != []
    ensures p(xs[0]) ==> Filter(xs, p) != [] && Filter(xs, p)[0] == xs[0]
    ensures Filter(xs[1..], p) == if p(xs[0]) then Filter(xs, p)[1..] else Filter(xs, p)
  {
  }

  lemma {:induction false} FilterCount<T(!new)>(xs: seq<T>, p: T -> bool, x: T)
    requires p(x)
    ensures multiset(Filter(xs, p))[x] == multiset(xs)[x]
  {
    if xs == [] {
    } else {
      var rest := xs[1..];
      assert xs == [xs[0]] + rest;
      FilterCount(rest, p, x);
    }
  }

  lemma {:induction false} MapAppend<T, U>(xs: seq<T>, ys: seq<T>, f: T -> U)
    ensures Map(xs + ys, f) == Map(xs, f) + Map(ys, f)
  {
  }

  lemma {:induction false} MapSnoc<T, U>(xs: seq<T>, x: T, f: T -> U)
    ensures Map(xs + [x], f) == Map(xs, f) + [f(x)]
  {
  }

  lemma {:induction false} MapMap<T, U, V>(xs: seq<T>, f: T -> U, g: U -> V, h: T -> V)
    requires forall i :: 0 <= i < |xs| ==> g(f(xs[i])) == h(xs[i])
    ensures Map(Map(xs, f), g) == Map(xs, h)
  {
  }

  /** Filtering depends only on what the predicate says about the elements present. */
  lemma {:induction false} FilterAgree<T(!new)>(xs: seq<T>, p: T -> bool, q: T -> bool)
    requires forall x :: x in xs ==> p(x) == q(x)
    ensures Filter(xs, p) == Filter(xs, q)
  {
    if xs == [] {
    } else {
      assert xs[0] in xs;
      FilterAgree(xs[1..], p, q);
    }
  }

  /** Filtering by `p` and then by `q` keeps what passes both. */
  lemma {:induction false} FilterTwice<T(!new)>(xs: seq<T>, p: T -> bool, q: T -> bool, both: T -> bool)
    requires forall x :: x in xs ==> both(x) == (p(x) && q(x))
    ensures Filter(Filter(xs, p), q) == Filter(xs, both)
  {
    if xs == [] {
    } else {
      assert xs[0] in xs;
      var rest := Filter(xs[1..], p);
      FilterTwice(xs[1..], p, q, both);
      if p(xs[0]) {
        FilterAppend([xs[0]], rest, q);
      } else {
        assert Filter(xs, p) == rest;
      }
    }
  }

  lemma {:induction false} InterleavesPrepend<T>(e: seq<T>, xs: seq<T>, ys: seq<T>, zs: seq<T>)
    requires |e| <= 1 && Interleaves(xs, ys, zs)
    ensures Interleaves(e + xs, ys, e + zs) && Interleaves(xs, e + ys, e + zs)
  {
    if e == [] {
      assert e + xs == xs && e + ys == ys && e + zs == zs;
    } else {
      assert (e + xs)[1..] == xs && (e + ys)[1..] == ys && (e + zs)[1..] == zs;
    }
  }

  /** Filtering after mapping is mapping after filtering by the composed predicate. */
  lemma {:induction false} FilterMap<T(!new), U(!new)>(xs: seq<T>, f: T -> U, p: U -> bool, q: T -> bool)
    requires forall x :: x in xs ==> q(x) == p(f(x))
    ensures Filter(Map(xs, f), p) == Map(Filter(xs, q), f)
  {
    if xs == [] {
    } else {
      assert xs[0] in xs;
      FilterMap(xs[1..], f, p, q);
      assert Map(xs, f)[1..] == Map(xs[1..], f);
      MapAppend(if q(xs[0]) then [xs[0]] else [], Filter(xs[1..], q), f);
    }
  }

  /** A merge conserves its elements and keeps the order of both sides. */
  lemma {:induction false} InterleavingConserves<T>(xs: seq<T>, ys: seq<T>, zs: seq<T>)
    requires Interleaves(xs, ys, zs)
    ensures multiset(zs) == multiset(xs) + multiset(ys)
    ensures Subsequence(xs, zs) && Subsequence(ys, zs)
    decreases |zs|
  {
    if zs == [] {
    } else {
      if xs != [] && xs[0] == zs[0] && Interleaves(xs[1..], ys, zs[1..]) {
        InterleavingConserves(xs[1..], ys, zs[1..]);
        MergedFirst(xs, ys, zs);
      } else {
        InterleavingConserves(xs, ys[1..], zs[1..]);
        MergedFirst(ys, xs, zs);
      }
    }
  }

  lemma {:induction false} MergedFirst<T>(xs: seq<T>, ys: seq<T>, zs: seq<T>)
    requires xs != [] && zs != [] && xs[0] == zs[0]
    requires multiset(zs[1..]) == multiset(xs[1..]) + multiset(ys)
    requires Subsequence(xs[1..], zs[1..]) && Subsequence(ys, zs[1..])
    ensures multiset(zs) == multiset(xs) + multiset(ys)
    ensures Subsequence(xs, zs) && Subsequence(ys, zs)
  {
    assert zs == [zs[0]] + zs[1..] && xs == [xs[0]] + xs[1..];
  }
}

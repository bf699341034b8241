/** `sortFilesAlphabetically`: visible names, then dot names, each block sorted, then `../`. */
module DirectorySort {
  import opened Seqs

  /** `le(a, b)` stands for `a.localeCompare(b) <= 0`. */
  type Order = (string, string) -> bool

  ghost predicate TotalPreorder(le: Order) {
    && (forall a, b :: le(a, b) || le(b, a))
    && (forall a, b, c :: le(a, b) && le(b, c) ==> le(a, c))
  }

  ghost predicate Sorted(s: seq<string>, le: Order) {
    forall i, j :: 0 <= i < j < |s| ==> le(s[i], s[j])
  }

  /** The names that compare equal to `x`. */
  function SameRank(le: Order, x: string): (p: string -> bool) {
    y => le(x, y) && le(y, x)
  }

  /** `b` is `a` rearranged so that names comparing equal keep their order. */
  ghost predicate StableRearrangement(a: seq<string>, b: seq<string>, le: Order) {
    forall x :: Filter(a, SameRank(le, x)) == Filter(b, SameRank(le, x))
  }

  function Insert(x: string, s: seq<string>, le: Order): (r: seq<string>)
    ensures multiset(r) == multiset(s) + multiset{x}
  {
    if s == [] then [x]
    else if le(x, s[0]) then [x] + s
    else
      assert s == [s[0]] + s[1..];
      [s[0]] + Insert(x, s[1..], le)
  }

  /** `Array.prototype.sort` with that comparison: a stable sort. */
  function Sort(s: seq<string>, le: Order): (r: seq<string>)
    ensures multiset(r) == multiset(s)
  {
    if s == [] then []
    else
      assert s == [s[0]] + s[1..];
      Insert(s[0], Sort(s[1..], le), le)
  }

  predicate IsDotName(s: string) {
    s != "" && s[0] == '.'
  }

  predicate IsVisibleName(s: string) {
    !IsDotName(s)
  }

  /** Names that differ, ignoring case, from every name to skip. */
  function Kept(skip: seq<string>, lower: string -> string): (p: string -> bool)
    ensures forall s :: p(s) <==> forall i :: 0 <= i < |skip| ==> lower(skip[i]) != lower(s)
  {
    var n := Map(skip, lower);
    assert forall s :: lower(s) in n <==> exists i :: 0 <= i < |n| && n[i] == lower(s);
    (s: string) => lower(s) !in n
  }

  function SortListing(names: seq<string>, skip: seq<string>, lower: string -> string, le: Order): (r: seq<string>) {
    var kept := Filter(names, Kept(skip, lower));
    Sort(Filter(kept, IsVisibleName), le) + Sort(Filter(kept, IsDotName), le) + ["../"]
  }

  // ----- the sort is the stable sort

  lemma {:induction false} InsertSorted(x: string, s: seq<string>, le: Order)
    requires TotalPreorder(le) && Sorted(s, le)
    ensures Sorted(Insert(x, s, le), le)
  {
    if s == [] || le(x, s[0]) {
    } else {
      var r := Insert(x, s[1..], le);
      InsertSorted(x, s[1..], le);
      forall j | 0 <= j < |r|
        ensures le(s[0], r[j])
      {
        assert r[j] in multiset(r);
        assert r[j] == x || r[j] in s[1..];
      }
    }
  }

  lemma {:induction false} SortSorted(s: seq<string>, le: Order)
    requires TotalPreorder(le)
    ensures Sorted(Sort(s, le), le)
  {
    if s == [] {
    } else {
      SortSorted(s[1..], le);
      InsertSorted(s[0], Sort(s[1..], le), le);
    }
  }

  lemma {:induction false} Swap(a: seq<string>, b: seq<string>, c: seq<string>)
    requires a == [] || b == []
    ensures b + (a + c) == a + (b + c)
  {
  }

  /** An element the filter tells from `x` may be put before it or after it. */
  lemma {:induction false} FilterSwaps(x: string, y: string, r: seq<string>, rest: seq<string>, p: string -> bool)
    requires !(p(x) && p(y)) && Filter(r, p) == Filter([x] + rest, p)
    ensures Filter([y] + r, p) == Filter([x] + ([y] + rest), p)
  {
    FilterAppend([y], r, p);
    FilterAppend([x], rest, p);
    FilterAppend([y], rest, p);
    FilterAppend([x], [y] + rest, p);
    FilterOne(x, p);
    FilterOne(y, p);
    Swap(Filter([x], p), Filter([y], p), Filter(rest, p));
  }

  lemma {:induction false} InsertStable(x: string, s: seq<string>, le: Order, z: string)
    requires TotalPreorder(le)
    ensures Filter(Insert(x, s, le), SameRank(le, z)) == Filter([x] + s, SameRank(le, z))
  {
    if s == [] || le(x, s[0]) {
    } else {
      var rest := s[1..];
      InsertStable(x, rest, le, z);
      FilterSwaps(x, s[0], Insert(x, rest, le), rest, SameRank(le, z));
      assert s == [s[0]] + rest;
    }
  }

  lemma {:induction false} SortStable(s: seq<string>, le: Order)
    requires TotalPreorder(le)
    ensures StableRearrangement(s, Sort(s, le), le)
  {
    if s == [] {
    } else {
      SortStable(s[1..], le);
      forall z
        ensures Filter(s, SameRank(le, z)) == Filter(Sort(s, le), SameRank(le, z))
      {
        var t := Sort(s[1..], le);
        InsertStable(s[0], t, le, z);
        FilterAppend([s[0]], t, SameRank(le, z));
        FilterAppend([s[0]], s[1..], SameRank(le, z));
        assert s == [s[0]] + s[1..];
      }
    }
  }

  /** There is only one sorted stable rearrangement, so the sorting algorithm does not matter. */
  lemma {:induction false} StableSortUnique(a: seq<string>, b: seq<string>, le: Order)
    requires TotalPreorder(le) && Sorted(a, le) && Sorted(b, le)
    requires StableRearrangement(a, b, le)
    ensures a == b
    decreases |a|
  {
    RearrangementConserves(a, b, le);
    assert |multiset(a)| == |a| && |multiset(b)| == |b|;
    if a == [] {
    } else {
      HeadsAgree(a, b, le);
      forall x
        ensures Filter(a[1..], SameRank(le, x)) == Filter(b[1..], SameRank(le, x))
      {
        FilterTail(a, SameRank(le, x));
        FilterTail(b, SameRank(le, x));
      }
      StableSortUnique(a[1..], b[1..], le);
      assert a == [a[0]] + a[1..] && b == [b[0]] + b[1..];
    }
  }

  lemma {:induction false} RearrangementConserves(a: seq<string>, b: seq<string>, le: Order)
    requires TotalPreorder(le) && StableRearrangement(a, b, le)
    ensures multiset(a) == multiset(b)
  {
    forall x
      ensures multiset(a)[x] == multiset(b)[x]
    {
      FilterCount(a, SameRank(le, x), x);
      FilterCount(b, SameRank(le, x), x);
    }
  }

  lemma {:induction false} HeadsAgree(a: seq<string>, b: seq<string>, le: Order)
    requires TotalPreorder(le) && Sorted(a, le) && Sorted(b, le)
    requires StableRearrangement(a, b, le)
    requires a != [] && b != []
    ensures a[0] == b[0]
  {
    var p, q := SameRank(le, a[0]), SameRank(le, b[0]);
    assert a[0] in Filter(a, p) && Filter(a, p) == Filter(b, p);
    assert b[0] in Filter(b, q) && Filter(a, q) == Filter(b, q);
    assert le(b[0], a[0]) && le(a[0], b[0]);
    assert Filter(a, p)[0] == a[0] && Filter(b, p)[0] == b[0];
  }

  // ----- main result

  /**
   * Sorting a listing conserves the names that are not skipped, adds one final `../`, and puts the
   * sorted visible names before the sorted dot names.
   */
  lemma {:induction false} SortListingConserves(names: seq<string>, skip: seq<string>,
      lower: string -> string, le: Order)
    returns (n: nat)
    requires TotalPreorder(le)
    ensures var out := SortListing(names, skip, lower, le);
      && n < |out| && out[|out| - 1] == "../"
      && multiset(out[..|out| - 1]) == multiset(Filter(names, Kept(skip, lower)))
      && Sorted(out[..n], le) && (forall x :: x in out[..n] ==> x == "" || x[0] != '.')
      && Sorted(out[n..|out| - 1], le) && (forall x :: x in out[n..|out| - 1] ==> x != "" && x[0] == '.')
  {
    var kept := Filter(names, Kept(skip, lower));
    var v, h := Sort(Filter(kept, IsVisibleName), le), Sort(Filter(kept, IsDotName), le);
    SortedBlock(kept, IsVisibleName, le);
    SortedBlock(kept, IsDotName, le);
    SplitConserves(kept);
    Blocks(v, h, "../");
    n := |v|;
  }

  lemma {:induction false} SortedBlock(kept: seq<string>, p: string -> bool, le: Order)
    requires TotalPreorder(le)
    ensures var b := Sort(Filter(kept, p), le); Sorted(b, le) && forall x :: x in b ==> p(x)
  {
    SortSorted(Filter(kept, p), le);
    var b := Sort(Filter(kept, p), le);
    forall x | x in b
      ensures p(x)
    {
      assert x in multiset(b);
    }
  }

  lemma {:induction false} Blocks(v: seq<string>, h: seq<string>, last: string)
    ensures var out := v + h + [last];
      && out[|out| - 1] == last && out[..|v|] == v && out[|v|..|out| - 1] == h
      && multiset(out[..|out| - 1]) == multiset(v) + multiset(h)
  {
  }

  lemma {:induction false} SplitConserves(s: seq<string>)
    ensures multiset(Filter(s, IsVisibleName)) + multiset(Filter(s, IsDotName)) == multiset(s)
  {
    var v, h := Filter(s, IsVisibleName), Filter(s, IsDotName);
    forall x
      ensures (multiset(v) + multiset(h))[x] == multiset(s)[x]
    {
      if IsDotName(x) {
        FilterCount(s, IsDotName, x);
        assert x !in v;
      } else {
        FilterCount(s, IsVisibleName, x);
        assert x !in h;
      }
    }
  }
}

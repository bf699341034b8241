/** Whether a name matches a query: exactly, by prefix, or in fuzzy mode as a scattered subsequence. */
module QueryMatching {
  import opened Seqs

  /** The locale's lower case, and whether fuzzy matching is on. */
  datatype Matcher = Matcher(lower: char -> char, fuzzy: bool)

  function Lower(m: Matcher, s: string): (r: string) {
    Map(s, m.lower)
  }

  /** Taking each searched character at its first chance, left to right, all of them are found. */
  predicate Contains(target: string, search: string) {
    if search == "" then true
    else if target == "" then false
    else if target[0] == search[0] then Contains(target[1..], search[1..])
    else Contains(target[1..], search)
  }

  predicate MatchesQuery(m: Matcher, name: string, query: string) {
    || query == "" || name == query
    || Lower(m, name) == Lower(m, query)
    || query <= name
    || Lower(m, query) <= Lower(m, name)
    || (m.fuzzy && Contains(Lower(m, name), Lower(m, query)))
  }

  // ----- the greedy search

  /** The indexes are increasing and pick out `search` from `target`. */
  ghost predicate Picks(target: string, search: string, indexes: seq<nat>) {
    && |indexes| == |search|
    && (forall k :: 0 <= k < |indexes| ==> indexes[k] < |target| && target[indexes[k]] == search[k])
    && (forall j, k :: 0 <= j < k < |indexes| ==> indexes[j] < indexes[k])
  }

  /** The indexes are no greater than those of any choice, and `next` is not past the one it takes next. */
  ghost predicate Least(target: string, search: string, indexes: seq<nat>, next: nat) {
    forall other :: Picks(target, search, other) ==> AtMost(indexes, other) && Ahead(|indexes|, other, next)
  }

  ghost predicate AtMost(indexes: seq<nat>, other: seq<nat>) {
    |indexes| <= |other| && forall k :: 0 <= k < |indexes| ==> indexes[k] <= other[k]
  }

  ghost predicate Ahead(k: nat, other: seq<nat>, next: nat) {
    k < |other| ==> next <= other[k]
  }

  /** The search finds the leftmost choice of indexes if there is any choice at all. */
  method GreedyIndexes(target: string, search: string) returns (found: Option<seq<nat>>)
    requires search != ""
    ensures found.Some? <==> Contains(target, search)
    ensures found.Some? ==> Picks(target, search, found.value)
    ensures found.Some? ==> forall other :: Picks(target, search, other) ==> AtMost(found.value, other)
    ensures found.None? ==> forall other :: !Picks(target, search, other)
  {
    var indexes: seq<nat> := [];
    for i := 0 to |target|
      invariant |indexes| < |search| && Picks(target, search[..|indexes|], indexes)
      invariant forall k :: 0 <= k < |indexes| ==> indexes[k] < i
      invariant Contains(target, search) <==> Contains(target[i..], search[|indexes|..])
      invariant Least(target, search, indexes, i)
    {
      LeastStep(target, search, indexes, i);
      if target[i] == search[|indexes|] {
        indexes := indexes + [i];
        if |indexes| == |search| {
          assert search[..|indexes|] == search;
          return Some(indexes);
        }
      }
    }
    return None;
  }

  lemma {:induction false} LeastStep(target: string, search: string, indexes: seq<nat>, i: nat)
    requires i < |target| && |indexes| < |search| && Least(target, search, indexes, i)
    ensures target[i] == search[|indexes|] ==> Least(target, search, indexes + [i], i + 1)
    ensures target[i] != search[|indexes|] ==> Least(target, search, indexes, i + 1)
  {
    forall other | Picks(target, search, other)
      ensures target[i] == search[|indexes|] ==>
        AtMost(indexes + [i], other) && Ahead(|indexes| + 1, other, i + 1)
      ensures target[i] != search[|indexes|] ==> Ahead(|indexes|, other, i + 1)
    {
      assert AtMost(indexes, other) && Ahead(|indexes|, other, i);
    }
  }

  // ----- matching is a preorder on names

  function Shifted(indexes: seq<nat>, n: nat): (r: seq<nat>) {
    seq(|indexes|, k requires 0 <= k < |indexes| => indexes[k] + n)
  }

  lemma {:induction false} ContainedPicks(target: string, search: string) returns (indexes: seq<nat>)
    requires Contains(target, search)
    ensures Picks(target, search, indexes)
  {
    if search == "" {
      indexes := [];
    } else if target[0] == search[0] {
      var rest := ContainedPicks(target[1..], search[1..]);
      indexes := [0] + Shifted(rest, 1);
    } else {
      var rest := ContainedPicks(target[1..], search);
      indexes := Shifted(rest, 1);
    }
  }

  lemma {:induction false} PicksContained(target: string, search: string, indexes: seq<nat>)
    requires search != "" && Picks(target, search, indexes)
    ensures Contains(target, search)
  {
    GreedyDecides(target, search, 0, 0, indexes);
    assert target[0..] == target && search[0..] == search;
  }

  lemma {:induction false} GreedyDecides(target: string, search: string, i: nat, k: nat, indexes: seq<nat>)
    requires i <= |target| && k <= |search| && Picks(target, search, indexes) && Ahead(k, indexes, i)
    ensures Contains(target[i..], search[k..])
    decreases |target| - i
  {
    if k == |search| {
    } else {
      var s, t := search[k..], target[i..];
      assert i <= indexes[k] < |target|;
      assert s[1..] == search[k + 1..] && t[1..] == target[i + 1..];
      GreedyDecides(target, search, i + 1, if target[i] == search[k] then k + 1 else k, indexes);
    }
  }

  lemma {:induction false} ContainsTransitive(a: string, b: string, c: string)
    requires Contains(b, a) && Contains(c, b)
    ensures Contains(c, a)
  {
    var i := ContainedPicks(b, a);
    var j := ContainedPicks(c, b);
    if a != "" {
      PicksContained(c, a, seq(|i|, k requires 0 <= k < |i| => j[i[k]]));
    }
  }

  lemma {:induction false} PartIsContained(x: string, part: string, y: string)
    ensures Contains(x + part + y, part)
  {
    if part != "" {
      PicksContained(x + part + y, part, seq(|part|, k requires 0 <= k < |part| => |x| + k));
    }
  }

  /** In fuzzy mode matching is being contained, in prefix mode being a prefix, case aside. */
  lemma {:induction false} MatchesExact(m: Matcher, name: string, q: string)
    ensures MatchesQuery(m, name, q) <==>
      if m.fuzzy then Contains(Lower(m, name), Lower(m, q)) else Lower(m, q) <= Lower(m, name)
  {
    var n, s := Lower(m, name), Lower(m, q);
    if s <= n {
      PartIsContained("", s, n[|s|..]);
      assert "" + s + n[|s|..] == n;
    }
  }

  lemma {:induction false} MatchesItself(m: Matcher, q: string)
    ensures MatchesQuery(m, q, q)
  {
  }

  /** What matches a query that matches a shorter one matches the shorter one. */
  lemma {:induction false} MatchesTransitive(m: Matcher, name: string, q: string, q0: string)
    requires MatchesQuery(m, name, q) && MatchesQuery(m, q, q0)
    ensures MatchesQuery(m, name, q0)
  {
    MatchesExact(m, name, q);
    MatchesExact(m, q, q0);
    MatchesExact(m, name, q0);
    if m.fuzzy {
      ContainsTransitive(Lower(m, q0), Lower(m, q), Lower(m, name));
    }
  }

  /** So every name that matches `q` matches `q0`, exactly when `q` itself does. */
  lemma {:induction false} NarrowsIff(m: Matcher, q0: string, q: string)
    ensures (forall name :: MatchesQuery(m, name, q) ==> MatchesQuery(m, name, q0)) <==> MatchesQuery(m, q, q0)
  {
    MatchesItself(m, q);
    if MatchesQuery(m, q, q0) {
      forall name | MatchesQuery(m, name, q)
        ensures MatchesQuery(m, name, q0)
      {
        MatchesTransitive(m, name, q, q0);
      }
    }
  }

  /** A longer query matches every beginning of it. */
  lemma {:induction false} BeginningMatches(m: Matcher, q0: string, q: string)
    requires q0 <= q
    ensures MatchesQuery(m, q, q0)
  {
  }

  /** Two queries of one length that match each other are the same but for case. */
  lemma {:induction false} SameLength(m: Matcher, q0: string, q: string)
    requires MatchesQuery(m, q, q0) && |q0| == |q|
    ensures Lower(m, q0) == Lower(m, q)
  {
    MatchesExact(m, q, q0);
    if m.fuzzy {
      ContainedWhole(Lower(m, q), Lower(m, q0));
    }
  }

  lemma {:induction false} ContainsIsLonger(target: string, search: string)
    requires Contains(target, search)
    ensures |search| <= |target|
  {
    if search == "" {
    } else {
      ContainsIsLonger(target[1..], if target[0] == search[0] then search[1..] else search);
    }
  }

  lemma {:induction false} ContainedWhole(target: string, search: string)
    requires Contains(target, search) && |search| == |target|
    ensures search == target
  {
    if search == "" {
    } else if target[0] == search[0] {
      ContainedWhole(target[1..], search[1..]);
    } else {
      ContainsIsLonger(target[1..], search);
    }
  }
}

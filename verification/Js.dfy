/** The JavaScript string operations used by the generators, on sequences of characters. */
module Js {
  import opened Seqs

  /** `s.lastIndexOf(c)`: the index of the last `c`, or -1. */
  function LastIndexOf(s: string, c: char): (i: int)
    ensures -1 <= i < |s|
    ensures i >= 0 ==> s[i] == c
    ensures forall j :: i < j < |s| ==> s[j] != c
  {
    if s == "" then -1
    else if s[|s| - 1] == c then |s| - 1
    else LastIndexOf(s[..|s| - 1], c)
  }

  /** `s.indexOf(c)`: the index of the first `c`, or -1. */
  function IndexOf(s: string, c: char): (i: int)
    ensures -1 <= i < |s|
    ensures i >= 0 ==> s[i] == c
    ensures forall j :: 0 <= j < (if i < 0 then |s| else i) ==> s[j] != c
  {
    if s == "" then -1
    else if s[0] == c then 0
    else
      var i := IndexOf(s[1..], c);
      if i < 0 then -1 else i + 1
  }

  /** `s.slice(0, i)` for `i >= -1`: a negative end counts from the end of the string. */
  function SliceTo(s: string, i: int): (r: string)
    requires -1 <= i <= |s|
  {
    if i >= 0 then s[..i] else DropLast(s)
  }

  function DropLast(s: string): (r: string) {
    if s == "" then "" else s[..|s| - 1]
  }

  predicate EndsWith(s: string, c: char) {
    s != "" && s[|s| - 1] == c
  }

  /** `s.split(c)` for a one-character separator. */
  function Split(s: string, c: char): (parts: seq<string>)
    ensures parts != []
    decreases |s|
  {
    var i := IndexOf(s, c);
    if i < 0 then [s] else [s[..i]] + Split(s[i + 1..], c)
  }

  /** `parts.join(c)` for a one-character separator. */
  function Join(parts: seq<string>, c: char): (r: string)
    ensures parts == [] ==> r == ""
  {
    if parts == [] then ""
    else if |parts| == 1 then parts[0]
    else parts[0] + [c] + Join(parts[1..], c)
  }

  /** The text up to and including the last `c`; empty when there is none. */
  function Through(s: string, c: char): (r: string) {
    s[..LastIndexOf(s, c) + 1]
  }

  /** The text after the last `c`, or all of it: the query term of paths and value lists. */
  function After(s: string, c: char): (r: string) {
    s[LastIndexOf(s, c) + 1..]
  }

  /** The characters a regular expression's `.` does not match. */
  predicate IsLineBreak(c: char) {
    c == '\n' || c == '\r' || c == '\U{2028}' || c == '\U{2029}'
  }

  predicate HasLineBreak(s: string) {
    exists c | c in s :: IsLineBreak(c)
  }

  /** The length of what `.*` matches at the start of `s` when nothing stops it. */
  function DotRun(s: string): (n: nat)
    ensures n <= |s|
    ensures forall i :: 0 <= i < n ==> !IsLineBreak(s[i])
    ensures n < |s| ==> IsLineBreak(s[n])
  {
    if s == "" || IsLineBreak(s[0]) then 0 else 1 + DotRun(s[1..])
  }

  predicate IsSpace(c: char) {
    || '\t' <= c <= '\r' || c == ' ' || c == '\U{00A0}' || c == '\U{1680}'
    || '\U{2000}' <= c <= '\U{200A}' || c == '\U{2028}' || c == '\U{2029}'
    || c == '\U{202F}' || c == '\U{205F}' || c == '\U{3000}' || c == '\U{FEFF}'
  }

  function TrimStart(s: string): (r: string) {
    if s != "" && IsSpace(s[0]) then TrimStart(s[1..]) else s
  }

  function TrimEnd(s: string): (r: string) {
    if s != "" && IsSpace(s[|s| - 1]) then TrimEnd(s[..|s| - 1]) else s
  }

  /** `s.trim()`. */
  function Trim(s: string): (r: string) {
    TrimEnd(TrimStart(s))
  }

  // ----- laws

  lemma {:induction false} LastIndexOfUnique(s: string, c: char, i: int)
    requires -1 <= i < |s|
    requires i >= 0 ==> s[i] == c
    requires forall j :: i < j < |s| ==> s[j] != c
    ensures LastIndexOf(s, c) == i
  {
  }

  lemma {:induction false} IndexOfUnique(s: string, c: char, i: int)
    requires 0 <= i < |s| && s[i] == c
    requires forall j :: 0 <= j < i ==> s[j] != c
    ensures IndexOf(s, c) == i
  {
  }

  predicate AllSpace(s: string) {
    forall i :: 0 <= i < |s| ==> IsSpace(s[i])
  }

  /** White space and line breaks by code point, as ECMAScript lists them. */
  lemma {:induction false} CharacterClasses(c: char)
    ensures IsLineBreak(c) <==> c as int in {10, 13, 0x2028, 0x2029}
    ensures IsSpace(c) <==> c as int in {9, 10, 11, 12, 13, 32, 0xA0, 0x1680, 0x2000, 0x2001, 0x2002, 0x2003, 0x2004,
        0x2005, 0x2006, 0x2007, 0x2008, 0x2009, 0x200A, 0x2028, 0x2029, 0x202F, 0x205F, 0x3000, 0xFEFF}
    ensures IsLineBreak(c) ==> IsSpace(c)
  {
  }

  lemma {:induction false} LineBreakExact(s: string)
    ensures HasLineBreak(s) <==> exists i :: 0 <= i < |s| && s[i] as int in {10, 13, 0x2028, 0x2029}
  {
    if HasLineBreak(s) {
      var c :| c in s && IsLineBreak(c);
      var i :| 0 <= i < |s| && s[i] == c;
      CharacterClasses(c);
    } else {
      forall i | 0 <= i < |s|
        ensures s[i] as int !in {10, 13, 0x2028, 0x2029}
      {
        assert s[i] in s;
        CharacterClasses(s[i]);
      }
    }
  }

  lemma {:induction false} TrimStartExact(s: string) returns (a: string)
    ensures s == a + TrimStart(s) && AllSpace(a)
    ensures TrimStart(s) != "" ==> !IsSpace(TrimStart(s)[0])
  {
    if s == "" || !IsSpace(s[0]) {
      a := "";
    } else {
      var a' := TrimStartExact(s[1..]);
      a := [s[0]] + a';
    }
  }

  lemma {:induction false} TrimEndExact(s: string) returns (b: string)
    ensures s == TrimEnd(s) + b && AllSpace(b)
    ensures TrimEnd(s) != "" ==> !IsSpace(TrimEnd(s)[|TrimEnd(s)| - 1])
  {
    if s == "" || !IsSpace(s[|s| - 1]) {
      b := "";
    } else {
      var b' := TrimEndExact(s[..|s| - 1]);
      b := b' + [s[|s| - 1]];
    }
  }

  /** Trimming removes white space only, all of it, and only at the ends. */
  lemma {:induction false} TrimExact(s: string) returns (a: string, b: string)
    ensures s == a + (Trim(s) + b) && AllSpace(a) && AllSpace(b)
    ensures Trim(s) != "" ==> !IsSpace(Trim(s)[0]) && !IsSpace(Trim(s)[|Trim(s)| - 1])
  {
    a := TrimStartExact(s);
    b := TrimEndExact(TrimStart(s));
    assert Trim(s) != "" ==> Trim(s)[0] == TrimStart(s)[0];
  }

  lemma {:induction false} TrimStartUnique(a: string, m: string)
    requires AllSpace(a) && (m == "" || !IsSpace(m[0]))
    ensures TrimStart(a + m) == m
  {
    if a == "" {
      assert a + m == m;
    } else {
      assert (a + m)[1..] == a[1..] + m;
      TrimStartUnique(a[1..], m);
    }
  }

  lemma {:induction false} TrimEndUnique(m: string, b: string)
    requires AllSpace(b) && (m == "" || !IsSpace(m[|m| - 1]))
    ensures TrimEnd(m + b) == m
  {
    if b == "" {
      assert m + b == m;
    } else {
      assert (m + b)[..|m + b| - 1] == m + b[..|b| - 1];
      TrimEndUnique(m, b[..|b| - 1]);
    }
  }

  /** Conversely, text between white space is what trimming leaves. */
  lemma {:induction false} TrimUnique(a: string, m: string, b: string)
    requires AllSpace(a) && AllSpace(b) && m != "" && !IsSpace(m[0]) && !IsSpace(m[|m| - 1])
    ensures Trim(a + (m + b)) == m
  {
    assert (m + b)[0] == m[0];
    TrimStartUnique(a, m + b);
    TrimEndUnique(m, b);
  }

  /** The two parts of a string at its last `c`. */
  lemma {:induction false} ThroughAfter(s: string, c: char)
    ensures s == Through(s, c) + After(s, c)
    ensures Through(s, c) == "" || EndsWith(Through(s, c), c)
    ensures c !in After(s, c)
    ensures |Through(s, c)| == LastIndexOf(s, c) + 1
  {
  }

  /** Any decomposition into a part ending in `c` and a `c`-free rest is the one at the last `c`. */
  lemma {:induction false} ThroughUnique(p: string, r: string, c: char)
    requires p == "" || EndsWith(p, c)
    requires c !in r
    ensures Through(p + r, c) == p && After(p + r, c) == r
  {
    LastIndexOfUnique(p + r, c, |p| - 1);
    assert (p + r)[..|p|] == p && (p + r)[|p|..] == r;
  }

  /** Appending text that contains no `c` after `p` extends only the part after the last `c`. */
  lemma {:induction false} ThroughAppend(p: string, r: string, c: char)
    requires p == "" || EndsWith(p, c)
    ensures Through(p + r, c) == p + Through(r, c)
  {
    var t, a := Through(r, c), After(r, c);
    ThroughAfter(r, c);
    Associative(p, t, a);
    EndsWithAppend(p, t, c);
    ThroughUnique(p + t, a, c);
  }

  lemma {:induction false} EndsWithAppend(p: string, t: string, c: char)
    requires p == "" || EndsWith(p, c)
    requires t == "" || EndsWith(t, c)
    ensures p + t == "" || EndsWith(p + t, c)
  {
  }

  lemma {:induction false} SplitWhole(s: string, c: char)
    requires c !in s
    ensures Split(s, c) == [s]
  {
  }

  lemma {:induction false} SplitParts(s: string, c: char)
    ensures forall p :: p in Split(s, c) ==> c !in p
    decreases |s|
  {
    var i := IndexOf(s, c);
    if i < 0 {
    } else {
      SplitParts(s[i + 1..], c);
    }
  }

  /** Splitting is a homomorphism: a separator between two texts separates their parts. */
  lemma {:induction false} SplitAppend(a: string, b: string, c: char)
    ensures Split(a + [c] + b, c) == Split(a, c) + Split(b, c)
    decreases |a|
  {
    var s, t := a + [c] + b, [c] + b;
    Associative(a, [c], b);
    var i := IndexOf(a, c);
    if i < 0 {
      IndexOfUnique(s, c, |a|);
      assert s[..|a|] == a && s[|a| + 1..] == b;
    } else {
      CutInside(a, t, i);
      IndexOfUnique(s, c, i);
      SplitAppend(a[i + 1..], b, c);
      Associative(a[i + 1..], [c], b);
      Associative([a[..i]], Split(a[i + 1..], c), Split(b, c));
    }
  }

  lemma {:induction false} CutInside(a: string, t: string, i: nat)
    requires i < |a|
    ensures (a + t)[..i] == a[..i] && (a + t)[i] == a[i] && (a + t)[i + 1..] == a[i + 1..] + t
    ensures forall j :: 0 <= j < i ==> (a + t)[j] == a[j]
  {
  }

  lemma {:induction false} JoinPrepend(p: string, parts: seq<string>, c: char)
    requires parts != []
    ensures Join([p] + parts, c) == p + [c] + Join(parts, c)
  {
  }

  /** Joining all parts is joining those before and those from any inner one on. */
  lemma {:induction false} JoinCut(parts: seq<string>, k: nat, c: char)
    requires 1 <= k < |parts|
    ensures Join(parts, c) == Join(parts[..k], c) + [c] + Join(parts[k..], c)
  {
    var first, rest := parts[0], parts[1..];
    if k == 1 {
      assert parts[..1] == [first];
    } else {
      var a, b := rest[..k - 1], rest[k - 1..];
      assert parts[..k] == [first] + a && parts[k..] == b;
      JoinPrepend(first, a, c);
      JoinCut(rest, k - 1, c);
      JoinRegroup(first, c, Join(a, c), Join(b, c));
    }
  }

  lemma {:induction false} JoinRegroup(p: string, c: char, q: string, r: string)
    ensures p + [c] + (q + [c] + r) == p + [c] + q + [c] + r
  {
  }

  /** Splitting is undone by joining. */
  lemma {:induction false} JoinSplit(s: string, c: char)
    ensures Join(Split(s, c), c) == s
    decreases |s|
  {
    var i := IndexOf(s, c);
    if i < 0 {
    } else {
      var rest := s[i + 1..];
      JoinSplit(rest, c);
      JoinPrepend(s[..i], Split(rest, c), c);
      Reassemble(s, i);
    }
  }

  lemma {:induction false} Reassemble(s: string, i: nat)
    requires i < |s|
    ensures s == s[..i] + [s[i]] + s[i + 1..]
  {
  }

  /** Joining is undone by splitting, for a non-empty list of separator-free parts. */
  lemma {:induction false} SplitJoin(parts: seq<string>, c: char)
    requires parts != []
    requires forall p :: p in parts ==> c !in p
    ensures Split(Join(parts, c), c) == parts
  {
    assert parts[0] in parts;
    SplitWhole(parts[0], c);
    if |parts| == 1 {
    } else {
      SplitJoin(parts[1..], c);
      SplitAppend(parts[0], Join(parts[1..], c), c);
    }
  }

  /** The parts are those of the text before the last separator, then the text after it. */
  lemma {:induction false} SplitAtLast(s: string, c: char)
    ensures var i := LastIndexOf(s, c);
            Split(s, c) == (if i < 0 then [] else Split(s[..i], c)) + [After(s, c)]
  {
    var i := LastIndexOf(s, c);
    if i < 0 {
      SplitWhole(s, c);
    } else {
      assert s == s[..i] + [c] + s[i + 1..];
      SplitAppend(s[..i], s[i + 1..], c);
      SplitWhole(s[i + 1..], c);
    }
  }

  /** The parts before the last one are determined by the text through the last separator. */
  lemma {:induction false} SplitInit(s: string, t: string, c: char)
    requires Through(s, c) == Through(t, c)
    ensures Split(s, c)[..|Split(s, c)| - 1] == Split(t, c)[..|Split(t, c)| - 1]
  {
    SplitAtLast(s, c);
    SplitAtLast(t, c);
    var i := LastIndexOf(s, c);
    assert |Through(s, c)| == i + 1 && |Through(t, c)| == LastIndexOf(t, c) + 1;
    if i >= 0 {
      assert s[..i] == Through(s, c)[..i] == t[..i];
    }
  }
}

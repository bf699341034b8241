/** The `apt` package generator, which lists packages on the first character and then reuses the list. */
module AptPackages {
  import opened Seqs
  import opened Js
  import opened Sessions

  predicate AptTrigger(new_: string, old_: string) {
    |new_| == 0 || (|old_| == 0 && |new_| > 0)
  }

  function StartsWith(p: string): (f: string -> bool) {
    (s: string) => p <= s
  }

  /** The line without its first slash and what follows it up to a line break. */
  function PackageName(line: string): (r: string) {
    var i := IndexOf(line, '/');
    if i < 0 then line else line[..i] + FromBreak(line[i + 1..])
  }

  /** The text from its first line break on. */
  function FromBreak(s: string): (r: string)
    ensures r != "" ==> IsLineBreak(r[0])
  {
    s[DotRun(s)..]
  }

  function Lines(stdout: string): (r: seq<string>) {
    Split(Trim(stdout), '\n')
  }

  /** The names offered for a token, from the listed lines. */
  function Packages(lines: seq<string>, term: string): (r: seq<string>) {
    if term == "" then [] else Map(Filter(lines, StartsWith(term)), PackageName)
  }

  ghost predicate Complete(lines: seq<string>, computedFor: string, term: string) {
    forall line :: line in lines && term <= line ==> PackageName(line) in Packages(lines, computedFor)
  }

  /** In every run of single-character end edits from the empty token the list is that of the first character. */
  lemma {:induction false} ComputedForFirstCharacter(s: Session, terms: seq<string>)
    requires Edits(SingleEndEdit, s.term, terms)
    requires s.computedFor == if s.term == "" then "" else s.term[..1]
    ensures var r := Run(AptTrigger, s, terms); r.computedFor == if r.term == "" then "" else r.term[..1]
    decreases |terms|
  {
    if terms == [] {
    } else {
      var next := Advance(AptTrigger, s, terms[0]);
      assert next.computedFor == if next.term == "" then "" else next.term[..1];
      ComputedForFirstCharacter(next, terms[1..]);
    }
  }

  /** A list computed for a non-empty prefix of the token has every matching package. */
  lemma {:induction false} PrefixIsComplete(lines: seq<string>, computedFor: string, term: string)
    requires computedFor != "" && computedFor <= term
    ensures Complete(lines, computedFor, term)
  {
  }

  /** The package list stays complete under first-character reuse. */
  lemma {:induction false} ReuseIsComplete(stdout: string, terms: seq<string>)
    requires Edits(SingleEndEdit, "", terms)
    ensures var s := Run(AptTrigger, Start(""), terms);
      s.term != "" ==> Complete(Lines(stdout), s.computedFor, s.term)
  {
    ComputedForFirstCharacter(Start(""), terms);
    var s := Run(AptTrigger, Start(""), terms);
    if s.term != "" {
      PrefixIsComplete(Lines(stdout), s.computedFor, s.term);
    }
  }

  /** A list is complete whatever the listing exactly when it was computed for a non-empty prefix. */
  lemma {:induction false} CompleteIff(computedFor: string, term: string)
    requires term != ""
    ensures (forall lines :: Complete(lines, computedFor, term)) <==> computedFor != "" && computedFor <= term
  {
    if computedFor != "" && computedFor <= term {
      forall lines
        ensures Complete(lines, computedFor, term)
      {
        PrefixIsComplete(lines, computedFor, term);
      }
    } else {
      var lines := [term];
      assert Filter(lines, StartsWith(computedFor)) == [] || computedFor == "";
      assert Packages(lines, computedFor) == [];
      assert term in lines && !Complete(lines, computedFor, term);
    }
  }

  /** Larger edits break it: pasting a token and deleting from it keeps the list of the whole paste. */
  lemma {:induction false} PasteThenDeleteIsIncomplete()
    ensures var s := Run(AptTrigger, Start(""), ["ab", "a"]);
      s == Session("a", "ab") && !Complete(["ac"], s.computedFor, s.term)
  {
    var s1 := Advance(AptTrigger, Start(""), "ab");
    var s2 := Advance(AptTrigger, s1, "a");
    assert Run(AptTrigger, s2, []) == s2;
    assert Run(AptTrigger, s1, ["a"]) == s2;
    assert Run(AptTrigger, Start(""), ["ab", "a"]) == s2;
    assert Packages(["ac"], "ab") == [];
    assert "ac" in ["ac"] && "a" <= "ac";
  }

  /** Whether a line starts with a typed token can be read off the package name. */
  lemma {:induction false} NameStartsLikeLine(line: string, term: string)
    requires '/' !in term && !HasLineBreak(term)
    ensures term <= PackageName(line) <==> term <= line
  {
    var i := IndexOf(line, '/');
    if i >= 0 {
      var front, rest, tail := line[..i], line[i..], FromBreak(line[i + 1..]);
      assert front + rest == line;
      assert tail != "" ==> tail[0] !in term;
      PrefixWithin(term, front, rest);
      PrefixWithin(term, front, tail);
    }
  }

  lemma {:induction false} PrefixWithin(term: string, a: string, b: string)
    requires b == "" || b[0] !in term
    ensures term <= a + b <==> term <= a
  {
    if |term| <= |a| {
      assert (a + b)[..|term|] == a[..|term|];
    } else if b != "" {
      assert (a + b)[|a|] == b[0] && term[|a|] in term;
    }
  }

  /** Filtering the reused names by the token gives exactly the names a fresh run would, in order. */
  lemma {:induction false} RefilteredReuseIsExact(lines: seq<string>, computedFor: string, term: string)
    requires computedFor != "" && computedFor <= term
    requires '/' !in term && !HasLineBreak(term)
    ensures Filter(Packages(lines, computedFor), StartsWith(term)) == Packages(lines, term)
  {
    var kept := Filter(lines, StartsWith(computedFor));
    forall line | line in kept
      ensures StartsWith(term)(line) == StartsWith(term)(PackageName(line))
    {
      NameStartsLikeLine(line, term);
    }
    FilterMap(kept, PackageName, StartsWith(term), StartsWith(term));
    FilterTwice(lines, StartsWith(computedFor), StartsWith(term), StartsWith(term));
  }

  /** Over every run of single-character end edits, refiltered reuse equals recomputation. */
  lemma {:induction false} ReuseRefinesRecomputation(stdout: string, terms: seq<string>)
    requires Edits(SingleEndEdit, "", terms)
    ensures var s := Run(AptTrigger, Start(""), terms);
      s.term != "" && '/' !in s.term && !HasLineBreak(s.term) ==>
        Filter(Packages(Lines(stdout), s.computedFor), StartsWith(s.term)) == Packages(Lines(stdout), s.term)
  {
    ComputedForFirstCharacter(Start(""), terms);
    var s := Run(AptTrigger, Start(""), terms);
    if s.term != "" && '/' !in s.term && !HasLineBreak(s.term) {
      RefilteredReuseIsExact(Lines(stdout), s.computedFor, s.term);
    }
  }

  // ----- a printed listing is read back

  /** A package and the rest of its line. */
  datatype Listed = Listed(name: string, rest: string)

  predicate WellFormed(p: Listed) {
    && p.name != "" && '/' !in p.name && !IsSpace(p.name[0]) && !HasLineBreak(p.name)
    && !HasLineBreak(p.rest) && (p.rest == "" || !IsSpace(p.rest[|p.rest| - 1]))
  }

  function PrintLine(p: Listed): (r: string) {
    p.name + "/" + p.rest
  }

  function NameOf(p: Listed): (r: string) {
    p.name
  }

  /**
   * The name of a line is what stands before its first slash, and what follows a line break inside the
   * line; a line without a slash is its own name.
   */
  lemma {:induction false} PackageNameExact(name: string, rest: string, tail: string)
    requires '/' !in name && !HasLineBreak(rest) && (tail == "" || IsLineBreak(tail[0]))
    ensures PackageName(name + "/" + (rest + tail)) == name + tail && PackageName(name) == name
  {
    var line := name + "/" + (rest + tail);
    assert line[|name|] == '/' && forall j :: 0 <= j < |name| ==> line[j] == name[j];
    IndexOfUnique(line, '/', |name|);
    assert line[..|name|] == name && line[|name| + 1..] == rest + tail;
    FromBreakExact(rest, tail);
  }

  lemma {:induction false} FromBreakExact(rest: string, tail: string)
    requires !HasLineBreak(rest) && (tail == "" || IsLineBreak(tail[0]))
    ensures FromBreak(rest + tail) == tail
  {
    var s, n := rest + tail, DotRun(rest + tail);
    forall j | 0 <= j < |rest|
      ensures !IsLineBreak(s[j])
    {
      assert s[j] == rest[j] && rest[j] in rest;
    }
    assert tail != "" ==> s[|rest|] == tail[0];
    assert n == |rest|;
  }

  lemma {:induction false} PrintedStarts(p: Listed, term: string)
    requires WellFormed(p) && '/' !in term
    ensures term <= PrintLine(p) <==> term <= p.name
  {
    Associative(p.name, "/", p.rest);
    PrefixWithin(term, p.name, "/" + p.rest);
  }

  /** For lines printed from packages the answer is, in order, the names that start with the token. */
  lemma {:induction false} PrintedPackages(ps: seq<Listed>, term: string)
    requires (forall p :: p in ps ==> WellFormed(p)) && term != "" && '/' !in term
    ensures Packages(Map(ps, PrintLine), term) == Filter(Map(ps, NameOf), StartsWith(term))
  {
    if ps == [] {
    } else {
      var p, rest := ps[0], ps[1..];
      assert p in ps && ps == [p] + rest;
      PrintedPackages(rest, term);
      PrintedStarts(p, term);
      PackageNameExact(p.name, p.rest, "");
      assert p.rest + "" == p.rest && p.name + "" == p.name;
      PackagesCons(PrintLine(p), Map(rest, PrintLine), term);
      assert Map(ps, PrintLine) == [PrintLine(p)] + Map(rest, PrintLine);
      assert Map(ps, NameOf) == [p.name] + Map(rest, NameOf);
    }
  }

  lemma {:induction false} PackagesCons(line: string, lines: seq<string>, term: string)
    requires term != ""
    ensures Packages([line] + lines, term)
         == (if term <= line then [PackageName(line)] else []) + Packages(lines, term)
  {
    FilterAppend([line], lines, StartsWith(term));
    FilterOne(line, StartsWith(term));
    MapAppend(Filter([line], StartsWith(term)), Filter(lines, StartsWith(term)), PackageName);
  }

  /** The command's output: the lines, each followed by a line feed. */
  function PrintListing(ps: seq<Listed>): (r: string) {
    Join(Map(ps, PrintLine), '\n') + "\n"
  }

  lemma {:induction false} PrintedLine(p: Listed)
    requires WellFormed(p)
    ensures var line := PrintLine(p);
      line != "" && !IsSpace(line[0]) && !IsSpace(line[|line| - 1]) && '\n' !in line
  {
    assert forall c :: c in p.name || c in p.rest ==> c != '\n' by {
      assert IsLineBreak('\n');
    }
  }

  lemma {:induction false} JoinEnds(lines: seq<string>)
    requires lines != [] && forall x :: x in lines ==> x != "" && !IsSpace(x[0]) && !IsSpace(x[|x| - 1])
    ensures var s := Join(lines, '\n'); s != "" && !IsSpace(s[0]) && !IsSpace(s[|s| - 1])
  {
    assert lines[0] in lines;
    if |lines| == 1 {
    } else {
      JoinEnds(lines[1..]);
    }
  }

  /** End to end: from the command's output to the names, and no rows for the empty token. */
  lemma {:induction false} ListingIsRead(ps: seq<Listed>, term: string)
    requires (forall p :: p in ps ==> WellFormed(p)) && ps != [] && '/' !in term
    ensures Packages(Lines(PrintListing(ps)), term)
         == if term == "" then [] else Filter(Map(ps, NameOf), StartsWith(term))
  {
    var lines := Map(ps, PrintLine);
    forall x | x in lines
      ensures x != "" && !IsSpace(x[0]) && !IsSpace(x[|x| - 1]) && '\n' !in x
    {
      var i :| 0 <= i < |lines| && lines[i] == x;
      PrintedLine(ps[i]);
    }
    JoinEnds(lines);
    TrimUnique("", Join(lines, '\n'), "\n");
    assert "" + PrintListing(ps) == PrintListing(ps);
    SplitJoin(lines, '\n');
    if term != "" {
      PrintedPackages(ps, term);
    }
  }
}

/** The Bazel generator's scan of a dump of BUILD files: a header line per file, then its content. */
module BazelTargets {
  import opened Seqs
  import opened Js

  datatype Row = Row(name: string, description: string, icon: string, priority: nat)

  function TargetRow(name: string): (r: Row) {
    Row(name, "Bazel target", "\U{1F3AF}", 80)
  }

  // ----- the two patterns

  /** The greatest start of `lit` in `s` that is at most `n`, or -1. */
  function LastStart(s: string, lit: string, n: nat): (j: int)
    requires n <= |s|
    ensures -1 <= j <= n
    ensures j >= 0 ==> lit <= s[j..]
    ensures forall k :: j < k <= n ==> !(lit <= s[k..])
  {
    if lit <= s[n..] then n else if n == 0 then -1 else LastStart(s, lit, n - 1)
  }

  /** The group of `(.*)lit` at the start of `s`: as much as possible on one line. */
  function Group(s: string, lit: string): (r: Option<string>) {
    var j := LastStart(s, lit, DotRun(s));
    if j < 0 then None else Some(s[..j])
  }

  const DASHES := "----"
  const BUILD := "/BUILD"
  const NAME := "name = \""
  const QUOTE := "\""

  function HeaderAt(s: string): (r: Option<string>) {
    if |s| > 4 && DASHES <= s && !IsLineBreak(s[4]) then Group(s[5..], BUILD) else None
  }

  /** `line.match("----.(.*)/BUILD")`: the group of the leftmost match. */
  function MatchHeader(line: string): (r: Option<string>) {
    if line == "" || HeaderAt(line).Some? then HeaderAt(line) else MatchHeader(line[1..])
  }

  function TargetAt(s: string): (r: Option<string>) {
    if NAME <= s then Group(s[|NAME|..], QUOTE) else None
  }

  /** `line.match('name = "(.*)"')`: the group of the leftmost match. */
  function MatchTarget(line: string): (r: Option<string>) {
    if line == "" || TargetAt(line).Some? then TargetAt(line) else MatchTarget(line[1..])
  }

  // ----- the scan

  /** The package prefix in force after a line. */
  function NextPrefix(prefix: string, line: string): (r: string) {
    var h := MatchHeader(line);
    if h.Some? then h.value + ":" else prefix
  }

  /** The rows a line adds. */
  function LineRows(prefix: string, line: string): (r: seq<Row>) {
    var t := MatchTarget(line);
    if MatchHeader(line).None? && t.Some? then [TargetRow(prefix + t.value)] else []
  }

  function Scan(prefix: string, lines: seq<string>): (r: seq<Row>)
    decreases |lines|
  {
    if lines == [] then []
    else LineRows(prefix, lines[0]) + Scan(NextPrefix(prefix, lines[0]), lines[1..])
  }

  function FinalPrefix(prefix: string, lines: seq<string>): (r: string)
    decreases |lines|
  {
    if lines == [] then prefix else FinalPrefix(NextPrefix(prefix, lines[0]), lines[1..])
  }

  lemma {:induction false} ScanStep(lines: seq<string>, i: nat)
    requires i < |lines|
    ensures var prefix := FinalPrefix("", lines[..i]);
      && Scan("", lines[..i + 1]) == Scan("", lines[..i]) + LineRows(prefix, lines[i])
      && FinalPrefix("", lines[..i + 1]) == NextPrefix(prefix, lines[i])
  {
    ScanSnoc("", lines[..i], lines[i]);
    assert lines[..i + 1] == lines[..i] + [lines[i]];
  }

  method PostProcess(text: string) returns (rows: seq<Row>)
    ensures rows == Scan("", Split(text, '\n'))
  {
    var lines := Split(text, '\n');
    rows := [];
    var prefix := "";
    for i := 0 to |lines|
      invariant prefix == FinalPrefix("", lines[..i])
      invariant rows == Scan("", lines[..i])
    {
      ScanStep(lines, i);
      var header := MatchHeader(lines[i]);
      var target := MatchTarget(lines[i]);
      if header.Some? {
        prefix := header.value + ":";
      } else if target.Some? {
        rows := rows + [TargetRow(prefix + target.value)];
      }
    }
    assert lines[..|lines|] == lines;
  }

  /** Scanning is compositional: the only thing carried over is the package prefix. */
  lemma {:induction false} ScanAppend(prefix: string, a: seq<string>, b: seq<string>)
    ensures Scan(prefix, a + b) == Scan(prefix, a) + Scan(FinalPrefix(prefix, a), b)
    ensures FinalPrefix(prefix, a + b) == FinalPrefix(FinalPrefix(prefix, a), b)
    decreases |a|
  {
    if a == [] {
      assert a + b == b;
    } else {
      assert (a + b)[1..] == a[1..] + b;
      var next := NextPrefix(prefix, a[0]);
      ScanAppend(next, a[1..], b);
      Associative(LineRows(prefix, a[0]), Scan(next, a[1..]), Scan(FinalPrefix(next, a[1..]), b));
    }
  }

  lemma {:induction false} ScanSnoc(prefix: string, a: seq<string>, line: string)
    ensures Scan(prefix, a + [line]) == Scan(prefix, a) + LineRows(FinalPrefix(prefix, a), line)
    ensures FinalPrefix(prefix, a + [line]) == NextPrefix(FinalPrefix(prefix, a), line)
  {
    ScanAppend(prefix, a, [line]);
    var p := FinalPrefix(prefix, a);
    assert [line][1..] == [];
    assert Scan(p, [line]) == LineRows(p, line) + Scan(NextPrefix(p, line), []);
  }

  // ----- what the patterns recognise

  lemma {:induction false} DotRunWhole(s: string)
    requires !HasLineBreak(s)
    ensures DotRun(s) == |s|
  {
  }

  lemma {:induction false} LastStartUnique(s: string, lit: string, n: nat, j: nat)
    requires j <= n <= |s| && lit <= s[j..]
    requires forall k :: j < k <= n ==> !(lit <= s[k..])
    ensures LastStart(s, lit, n) == j
  {
  }

  /** The line the command prints before the content of a file. */
  function HeaderLine(package: string): (r: string) {
    "----." + package + "/BUILD"
  }

  /** A header line names its package exactly, even when the package mentions `/BUILD` or dashes. */
  lemma {:induction false} HeaderRecognised(package: string)
    requires !HasLineBreak(package)
    ensures MatchHeader(HeaderLine(package)) == Some(package)
  {
    HeaderAtStart(package);
  }

  lemma {:induction false} HeaderAtStart(package: string)
    requires !HasLineBreak(package)
    ensures HeaderAt(HeaderLine(package)) == Some(package)
  {
    var line := HeaderLine(package);
    assert line == "----." + (package + BUILD);
    assert line[..4] == DASHES && line[4] == '.' && line[5..] == package + BUILD;
    GroupBeforeBuild(package);
  }

  lemma {:induction false} GroupBeforeBuild(package: string)
    requires !HasLineBreak(package)
    ensures Group(package + BUILD, BUILD) == Some(package)
  {
    var s := package + BUILD;
    DotRunWhole(s);
    assert s[|package|..] == BUILD && s[..|package|] == package;
    LastStartUnique(s, BUILD, |s|, |package|);
  }

  /** A target line gives the text between its first `name = "` and its last quote. */
  lemma {:induction false} TargetRecognised(before: string, target: string, after: string)
    requires '\"' !in before && '\"' !in after && !HasLineBreak(target)
    ensures MatchTarget(before + ("name = \"" + target + "\"" + after)) == Some(target)
    decreases |before|
  {
    var rest := NAME + target + QUOTE + after;
    if before == "" {
      assert before + rest == rest;
      TargetAtStart(target, after);
    } else {
      var line := before + rest;
      assert line[1..] == before[1..] + rest;
      assert !(NAME <= line) by {
        assert NAME[7] == '\"' && forall i :: 0 <= i < 7 ==> NAME[i] != '\"';
        assert if |before| > 7 then line[7] == before[7] else line[7] == NAME[7 - |before|];
      }
      TargetRecognised(before[1..], target, after);
    }
  }

  lemma {:induction false} TargetAtStart(target: string, after: string)
    requires '\"' !in after && !HasLineBreak(target)
    ensures TargetAt(NAME + target + QUOTE + after) == Some(target)
  {
    var s := target + (QUOTE + after);
    assert NAME + target + QUOTE + after == NAME + s;
    assert (NAME + s)[|NAME|..] == s;
    GroupBeforeQuote(target, after);
  }

  lemma {:induction false} GroupBeforeQuote(target: string, after: string)
    requires '\"' !in after && !HasLineBreak(target)
    ensures Group(target + (QUOTE + after), QUOTE) == Some(target)
  {
    var s, n := target + (QUOTE + after), |target|;
    assert s[n..] == QUOTE + after && s[..n] == target;
    forall k | n < k <= DotRun(s)
      ensures !(QUOTE <= s[k..])
    {
      if k < |s| {
        assert s[k..][0] == after[k - n - 1];
      }
    }
    LastStartUnique(s, QUOTE, DotRun(s), n);
  }

  // ----- the scan inverts the dump

  datatype BuildFile = BuildFile(package: string, lines: seq<string>)

  /** Content lines end at a line feed and are not themselves headers. */
  ghost predicate WellFormed(f: BuildFile) {
    && !HasLineBreak(f.package)
    && forall line :: line in f.lines ==> '\n' !in line && MatchHeader(line) == None
  }

  /** Each line followed by a line feed. */
  function Terminated(lines: seq<string>): (r: string) {
    if lines == [] then "" else lines[0] + ['\n'] + Terminated(lines[1..])
  }

  function FileLines(f: BuildFile): (r: seq<string>) {
    [HeaderLine(f.package)] + f.lines
  }

  /** The text the command prints for the files. */
  function Dump(files: seq<BuildFile>): (r: string) {
    if files == [] then "" else Terminated(FileLines(files[0])) + Dump(files[1..])
  }

  /** The targets of a file, in order, each as package, colon, target. */
  function FileTargets(package: string, lines: seq<string>): (r: seq<Row>) {
    if lines == [] then []
    else
      var t := MatchTarget(lines[0]);
      (if t.Some? then [Row(package + ":" + t.value, "Bazel target", "\U{1F3AF}", 80)] else [])
      + FileTargets(package, lines[1..])
  }

  function AllTargets(files: seq<BuildFile>): (r: seq<Row>) {
    if files == [] then [] else FileTargets(files[0].package, files[0].lines) + AllTargets(files[1..])
  }

  lemma {:induction false} SplitTerminated(lines: seq<string>, rest: string)
    requires forall line :: line in lines ==> '\n' !in line
    ensures Split(Terminated(lines) + rest, '\n') == lines + Split(rest, '\n')
  {
    if lines == [] {
      assert Terminated(lines) + rest == rest;
    } else {
      var line, more := lines[0], lines[1..];
      assert line in lines && lines == [line] + more;
      Associative(line + ['\n'], Terminated(more), rest);
      SplitAppend(line, Terminated(more) + rest, '\n');
      SplitWhole(line, '\n');
      SplitTerminated(more, rest);
      Associative([line], more, Split(rest, '\n'));
    }
  }

  lemma {:induction false} ScanContent(package: string, lines: seq<string>)
    requires forall line :: line in lines ==> MatchHeader(line) == None
    ensures Scan(package + ":", lines) == FileTargets(package, lines)
  {
    if lines == [] {
    } else {
      assert lines[0] in lines;
      ScanContent(package, lines[1..]);
    }
  }

  lemma {:induction false} ScanFile(prefix: string, f: BuildFile)
    requires WellFormed(f)
    ensures Scan(prefix, FileLines(f)) == FileTargets(f.package, f.lines)
  {
    HeaderRecognised(f.package);
    assert FileLines(f)[1..] == f.lines;
    assert NextPrefix(prefix, HeaderLine(f.package)) == f.package + ":";
    assert LineRows(prefix, HeaderLine(f.package)) == [];
    ScanContent(f.package, f.lines);
  }

  lemma {:induction false} HeaderLineWhole(package: string)
    requires !HasLineBreak(package)
    ensures '\n' !in HeaderLine(package)
  {
  }

  /** The scanner inverts the dump, whatever package it starts from: exactly the targets, in order. */
  lemma {:induction false} ScanDump(prefix: string, files: seq<BuildFile>)
    requires forall f :: f in files ==> WellFormed(f)
    ensures Scan(prefix, Split(Dump(files), '\n')) == AllTargets(files)
    decreases |files|
  {
    if files == [] {
      SplitWhole("", '\n');
      assert MatchHeader("") == None && MatchTarget("") == None;
      assert Split("", '\n') == [""];
      ScanSnoc(prefix, [], "");
      assert [] + [""] == [""];
    } else {
      var f := files[0];
      assert f in files;
      HeaderLineWhole(f.package);
      SplitTerminated(FileLines(f), Dump(files[1..]));
      var rest := Split(Dump(files[1..]), '\n');
      ScanAppend(prefix, FileLines(f), rest);
      ScanFile(prefix, f);
      ScanDump(FinalPrefix(prefix, FileLines(f)), files[1..]);
    }
  }

  /** So dumps can be scanned together or apart. */
  lemma {:induction false} DumpsCompose(a: seq<BuildFile>, b: seq<BuildFile>)
    requires forall f :: f in a + b ==> WellFormed(f)
    ensures Scan("", Split(Dump(a) + Dump(b), '\n'))
         == Scan("", Split(Dump(a), '\n')) + Scan("", Split(Dump(b), '\n'))
  {
    DumpAppend(a, b);
    assert forall f :: f in a || f in b ==> f in a + b;
    ScanDump("", a);
    ScanDump("", b);
    ScanDump("", a + b);
  }

  lemma {:induction false} DumpAppend(a: seq<BuildFile>, b: seq<BuildFile>)
    ensures Dump(a + b) == Dump(a) + Dump(b)
    ensures AllTargets(a + b) == AllTargets(a) + AllTargets(b)
  {
    if a == [] {
      assert a + b == b;
    } else {
      assert (a + b)[0] == a[0] && (a + b)[1..] == a[1..] + b;
      DumpAppend(a[1..], b);
      Associative(Terminated(FileLines(a[0])), Dump(a[1..]), Dump(b));
      Associative(FileTargets(a[0].package, a[0].lines), AllTargets(a[1..]), AllTargets(b));
    }
  }

  // ----- a file whose last line is not terminated

  predicate HasDashes(s: string) {
    |s| >= 4 && (DASHES <= s || HasDashes(s[1..]))
  }

  /** The package is still read off a header that a last line runs into. */
  predicate KeepsHeader(last: string) {
    !HasDashes(last) && !EndsWith(last, '-')
  }

  lemma {:induction false} NoLineBreakIn(a: string, b: string)
    requires !HasLineBreak(a) && !HasLineBreak(b)
    ensures !HasLineBreak(a + b)
  {
  }

  /** Four dashes at the start of the glued line are read as a header, with too long a package. */
  lemma {:induction false} DashesFirst(last: string, package: string)
    requires last != "" && !HasLineBreak(last) && !HasLineBreak(package)
    requires DASHES <= last + HeaderLine(package)
    ensures !KeepsHeader(last)
    ensures HeaderAt(last + HeaderLine(package)).Some? && HeaderAt(last + HeaderLine(package)) != Some(package)
  {
    var line := last + HeaderLine(package);
    if |last| < 4 {
      assert DASHES[|last| - 1] == line[|last| - 1] == last[|last| - 1];
    } else {
      assert last[..4] == line[..4] == DASHES;
    }
    NoLineBreakIn(DASHES + ".", package);
    NoLineBreakIn(last, DASHES + "." + package);
    GroupOfGlued(last + (DASHES + "." + package), line);
  }

  lemma {:induction false} GroupOfGlued(front: string, line: string)
    requires |front| > 5 && !HasLineBreak(front) && line == front + BUILD && DASHES <= line
    ensures HeaderAt(line) == Some(front[5..])
  {
    assert line[5..] == front[5..] + BUILD && line[4] == front[4] && front[4] in front;
    GroupBeforeBuild(front[5..]);
  }

  /** The glued header is always a header, and names its package exactly when the line keeps clear of it. */
  lemma {:induction false} GluedHeaderExact(last: string, package: string)
    requires !HasLineBreak(last) && !HasLineBreak(package)
    ensures MatchHeader(last + HeaderLine(package)).Some?
    ensures MatchHeader(last + HeaderLine(package)) == Some(package) <==> KeepsHeader(last)
    decreases |last|
  {
    var line := last + HeaderLine(package);
    if last == "" {
      assert line == HeaderLine(package);
      HeaderRecognised(package);
    } else if DASHES <= line {
      DashesFirst(last, package);
    } else {
      assert line[1..] == last[1..] + HeaderLine(package);
      GluedHeaderExact(last[1..], package);
      SkipFirst(last, HeaderLine(package));
    }
  }

  lemma {:induction false} SkipFirst(last: string, header: string)
    requires last != "" && DASHES <= header && !(DASHES <= last + header)
    ensures KeepsHeader(last) <==> KeepsHeader(last[1..])
  {
    if |last| >= 4 {
      assert (last + header)[..4] == last[..4];
    }
  }

  /**
   * When the last line of a file runs into the next header: the scan goes on as if they were apart
   * exactly when the line has no four dashes, does not end in one, and has no target.
   */
  lemma {:induction false} GluedLineExact(prefix: string, last: string, package: string)
    requires !HasLineBreak(last) && !HasLineBreak(package) && MatchHeader(last) == None
    ensures
      && Scan(prefix, [last + HeaderLine(package)]) == Scan(prefix, [last, HeaderLine(package)])
      && FinalPrefix(prefix, [last + HeaderLine(package)]) == FinalPrefix(prefix, [last, HeaderLine(package)])
    <==>
      KeepsHeader(last) && MatchTarget(last) == None
  {
    var h := HeaderLine(package);
    GluedHeaderExact(last, package);
    HeaderRecognised(package);
    ScanSnoc(prefix, [], last + h);
    ScanSnoc(prefix, [], last);
    ScanSnoc(prefix, [last], h);
    assert [] + [last + h] == [last + h] && [] + [last] == [last] && [last] + [h] == [last, h];
    ColonInjective(MatchHeader(last + h).value, package);
  }

  lemma {:induction false} ColonInjective(a: string, b: string)
    ensures a + ":" == b + ":" <==> a == b
  {
    assert (a + ":")[..|a|] == a && (b + ":")[..|b|] == b;
    assert |a + ":"| == |a| + 1 && |b + ":"| == |b| + 1;
  }

  lemma {:induction false} DashFree(line: string)
    requires '-' !in line
    ensures MatchHeader(line) == None
  {
    if line == "" {
    } else {
      assert line[0] in line && HeaderAt(line) == None;
      DashFree(line[1..]);
    }
  }

  /** So a target on an unterminated last line is lost. */
  lemma {:induction false} UnterminatedTargetIsLost(prefix: string, target: string, package: string)
    requires '-' !in target && !HasLineBreak(target) && !HasLineBreak(package)
    ensures var line := "name = \"" + target + "\"";
      && Scan(prefix, [line, HeaderLine(package)]) == [Row(prefix + target, "Bazel target", "\U{1F3AF}", 80)]
      && Scan(prefix, [line + HeaderLine(package)]) == []
  {
    var line := NAME + target + QUOTE;
    TargetLine(target);
    GluedIsHeader(prefix, line, package);
    HeaderRecognised(package);
    ApartScan(prefix, line, HeaderLine(package));
  }

  lemma {:induction false} TargetLine(target: string)
    requires '-' !in target && !HasLineBreak(target)
    ensures var line := NAME + target + QUOTE;
      MatchHeader(line) == None && MatchTarget(line) == Some(target) && !HasLineBreak(line)
  {
    var line := NAME + target + QUOTE;
    TargetRecognised("", target, "");
    assert "" + (line + "") == line;
    NoLineBreakIn(NAME, target);
    NoLineBreakIn(NAME + target, QUOTE);
    assert '-' !in line;
    DashFree(line);
  }

  /** And a dash at the end of one becomes part of the next header, and a dot of its package. */
  lemma {:induction false} UnterminatedDashShiftsPackage(prefix: string, package: string)
    requires !HasLineBreak(package)
    ensures FinalPrefix(prefix, ["-", HeaderLine(package)]) == package + ":"
    ensures FinalPrefix(prefix, ["-" + HeaderLine(package)]) == "." + package + ":"
  {
    var header := HeaderLine(package);
    HeaderRecognised(package);
    DashGlued(package);
    ScanSnoc(prefix, [], "-" + header);
    ScanSnoc(prefix, ["-"], header);
    assert [] + ["-" + header] == ["-" + header] && ["-"] + [header] == ["-", header];
  }

  lemma {:induction false} GluedIsHeader(prefix: string, line: string, package: string)
    requires !HasLineBreak(line) && !HasLineBreak(package)
    ensures Scan(prefix, [line + HeaderLine(package)]) == []
  {
    GluedHeaderExact(line, package);
    ScanSnoc(prefix, [], line + HeaderLine(package));
    assert [] + [line + HeaderLine(package)] == [line + HeaderLine(package)];
  }

  lemma {:induction false} ApartScan(prefix: string, line: string, header: string)
    ensures Scan(prefix, [line, header]) == LineRows(prefix, line) + LineRows(NextPrefix(prefix, line), header)
  {
    ScanSnoc(prefix, [], line);
    ScanSnoc(prefix, [line], header);
    assert [] + [line] == [line] && [line] + [header] == [line, header];
  }

  lemma {:induction false} DashGlued(package: string)
    requires !HasLineBreak(package)
    ensures MatchHeader("-" + HeaderLine(package)) == Some("." + package)
  {
    var front, line := "-" + (DASHES + "." + package), "-" + HeaderLine(package);
    NoLineBreakIn("-----.", package);
    assert front == "-----." + package && line == front + BUILD;
    assert front[5..] == "." + package;
    GroupOfGlued(front, line);
  }
}

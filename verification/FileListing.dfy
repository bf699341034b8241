/** `filepaths`: from the output of `ls` to the suggested rows, and reuse of those rows. */
module FileListing {
  import opened Seqs
  import opened Js
  import opened Sessions
  import opened ShellExpand
  import opened Paths
  import opened DirectorySort

  datatype Kind = File | Folder

  datatype Entry = Entry(kind: Kind, name: string, insertValue: string, isDangerous: bool, templateType: string)

  datatype ShowFolders = Always | Only | Never

  /** An option that may be one string or an array of them. */
  datatype Names = One(text: string) | Many(texts: seq<string>)

  /** The two edits stand for `Object.assign` of the configured properties over a row. */
  datatype Options = Options(
    extensions: Names,
    equals: Names,
    matches: Option<string -> bool>,
    filterFolders: bool,
    editFile: Option<Entry -> Entry>,
    editFolder: Option<Entry -> Entry>,
    rootDirectory: Option<string>,
    showFolders: ShowFolders)

  /** What the host supplies: the directory listing command, and the locale's case and order. */
  datatype Host = Host(ls: string -> Option<string>, lower: string -> string, le: Order)

  // ----- the extension filter

  /** `length`: of the string, or of the array. */
  function Length(n: Names): (k: nat) {
    match n
    case One(text) => |text|
    case Many(texts) => |texts|
  }

  /** `new Set(..)`: of a string, the set of its characters. */
  function Members(n: Names): (s: set<string>) {
    match n
    case One(text) => set c | c in text :: [c]
    case Many(texts) => set x | x in texts
  }

  predicate AnyFilter(o: Options) {
    Length(o.extensions) > 0 || Length(o.equals) > 0 || o.matches.Some?
  }

  /** Some dot in the name is followed by exactly one of the extensions. */
  ghost predicate HasExtension(name: string, extensions: set<string>) {
    exists i :: 0 <= i < |name| && name[i] == '.' && name[i + 1..] in extensions
  }

  ghost predicate AcceptedEntry(o: Options, e: Entry) {
    || (!o.filterFolders && e.kind == Folder)
    || e.name in Members(o.equals)
    || (o.matches.Some? && o.matches.value(e.name))
    || HasExtension(e.name, Members(o.extensions))
  }

  ghost function Accepted(o: Options): (p: Entry -> bool) {
    (e: Entry) => AcceptedEntry(o, e)
  }

  /** The parts from the k-th on, joined again. */
  function PartsFrom(parts: seq<string>, k: nat): (r: string)
    requires k <= |parts|
  {
    Join(parts[k..], '.')
  }

  /** The text from the k-th part of a dotted name on is what follows some dot in it. */
  lemma {:induction false} PartsAreSuffixes(name: string, k: nat) returns (i: nat)
    requires 1 <= k < |Split(name, '.')|
    ensures i < |name| && name[i] == '.' && name[i + 1..] == PartsFrom(Split(name, '.'), k)
  {
    var parts := Split(name, '.');
    JoinSplit(name, '.');
    JoinCut(parts, k, '.');
    i := |Join(parts[..k], '.')|;
  }

  /** Conversely, what follows any dot is the text from some part on. */
  lemma {:induction false} SuffixesAreParts(name: string, i: nat) returns (k: nat)
    requires i < |name| && name[i] == '.'
    ensures 1 <= k < |Split(name, '.')| && name[i + 1..] == PartsFrom(Split(name, '.'), k)
  {
    var before, after := name[..i], name[i + 1..];
    Reassemble(name, i);
    SplitAppend(before, after, '.');
    JoinSplit(after, '.');
    k := |Split(before, '.')|;
    assert Split(name, '.')[k..] == Split(after, '.');
  }

  lemma {:induction false} HasExtensionByParts(name: string, p: seq<string>, extensions: set<string>)
    requires p == Split(name, '.')[1..]
    ensures HasExtension(name, extensions) <==> exists k :: 0 <= k < |p| && PartsFrom(p, k) in extensions
  {
    var parts := Split(name, '.');
    if i :| 0 <= i < |name| && name[i] == '.' && name[i + 1..] in extensions {
      var k := SuffixesAreParts(name, i);
      assert p[k - 1..] == parts[k..];
      assert PartsFrom(p, k - 1) in extensions;
    }
    if k :| 0 <= k < |p| && PartsFrom(p, k) in extensions {
      var i := PartsAreSuffixes(name, k + 1);
      assert p[k..] == parts[k + 1..];
    }
  }

  lemma {:induction false} PartsStep(p: seq<string>, k: nat)
    requires k < |p|
    ensures PartsFrom(p, k) == if k + 1 == |p| then p[k] else p[k] + "." + PartsFrom(p, k + 1)
  {
    assert p[k..] == [p[k]] + p[k + 1..];
    if k + 1 < |p| {
      JoinPrepend(p[k], p[k + 1..], '.');
    }
  }

  /** The do-while loop: longer and longer dotted suffixes, until one is an extension. */
  method MatchExtension(name: string, extensions: set<string>) returns (found: bool)
    ensures found <==> HasExtension(name, extensions)
  {
    var p := Split(name, '.')[1..];
    HasExtensionByParts(name, p, extensions);
    if |p| >= 1 {
      var k := |p| - 1;
      var suffix := p[k];
      PartsStep(p, k);
      while true
        invariant 0 <= k < |p| && suffix == PartsFrom(p, k)
        invariant forall j :: k < j < |p| ==> PartsFrom(p, j) !in extensions
        decreases k
      {
        if suffix in extensions {
          return true;
        }
        k := k - 1;
        // On leaving the loop the source prepends an absent part; nothing reads the result.
        if k < 0 {
          break;
        }
        PartsStep(p, k);
        suffix := p[k] + "." + suffix;
      }
    }
    return false;
  }

  method AcceptEntry(o: Options, e: Entry) returns (ok: bool)
    ensures ok <==> AcceptedEntry(o, e)
  {
    if !o.filterFolders && e.kind == Folder {
      return true;
    }
    if e.name in Members(o.equals) || (o.matches.Some? && o.matches.value(e.name)) {
      return true;
    }
    ok := MatchExtension(e.name, Members(o.extensions));
  }

  // ----- collecting, filtering and editing rows

  /** The listed line becomes a row, under this folder setting. */
  predicate ShownLine(show: ShowFolders, line: string) {
    line != "" && if EndsWith(line, '/') then show != Never else show != Only
  }

  function Shown(show: ShowFolders): (p: string -> bool) {
    (line: string) => ShownLine(show, line)
  }

  function RowOf(isDangerous: bool): (f: string -> Entry) {
    (line: string) =>
      if EndsWith(line, '/') then Entry(Folder, line, line, isDangerous, "folders")
      else Entry(File, line, line, isDangerous, "filepaths")
  }

  ghost function Collected(lines: seq<string>, show: ShowFolders, isDangerous: bool): (rows: seq<Entry>) {
    Map(Filter(lines, Shown(show)), RowOf(isDangerous))
  }

  ghost function Filtered(o: Options, rows: seq<Entry>): (r: seq<Entry>) {
    if AnyFilter(o) then Filter(rows, Accepted(o)) else rows
  }

  function EditRow(o: Options): (f: Entry -> Entry) {
    (e: Entry) =>
      var edit := if e.kind == File then o.editFile else o.editFolder;
      if edit.Some? then edit.value(e) else e
  }

  function Edited(o: Options, rows: seq<Entry>): (r: seq<Entry>) {
    if o.editFile.None? && o.editFolder.None? then rows else Map(rows, EditRow(o))
  }

  /** The rows for the sorted lines of one directory. */
  ghost function Rows(o: Options, lines: seq<string>, isDangerous: bool): (rows: seq<Entry>) {
    Edited(o, Filtered(o, Collected(lines, o.showFolders, isDangerous)))
  }

  /** What `custom` answers for a search term; a failing command gives no rows. */
  ghost function Listing(h: Host, o: Options, cwd: Option<string>, term: string, env: Environment,
                         isDangerous: bool): (rows: seq<Entry>) {
    var base := if o.rootDirectory.Some? then o.rootDirectory else cwd;
    match h.ls(CurrentDirectory(base, term, env))
    case None => []
    case Some(out) => Rows(o, SortListing(Split(out, '\n'), [".DS_Store"], h.lower, h.le), isDangerous)
  }

  lemma {:induction false} CollectStep(lines: seq<string>, i: nat, show: ShowFolders, isDangerous: bool)
    requires i < |lines|
    ensures Collected(lines[..i + 1], show, isDangerous)
         == Collected(lines[..i], show, isDangerous)
          + if ShownLine(show, lines[i]) then [RowOf(isDangerous)(lines[i])] else []
  {
    CollectedSnoc(lines[..i], lines[i], show, isDangerous);
    assert lines[..i + 1] == lines[..i] + [lines[i]];
  }

  method Collect(lines: seq<string>, show: ShowFolders, isDangerous: bool) returns (rows: seq<Entry>)
    ensures rows == Collected(lines, show, isDangerous)
  {
    rows := [];
    for i := 0 to |lines|
      invariant rows == Collected(lines[..i], show, isDangerous)
    {
      var line := lines[i];
      CollectStep(lines, i, show, isDangerous);
      if line != "" {
        var isFolder := EndsWith(line, '/');
        if (!isFolder && show != Only) || (isFolder && show != Never) {
          var row := Entry(if isFolder then Folder else File, line, line, isDangerous,
                           if isFolder then "folders" else "filepaths");
          assert row == RowOf(isDangerous)(line);
          rows := rows + [row];
        }
      }
    }
    assert lines[..|lines|] == lines;
  }

  lemma {:induction false} FilterStep(rows: seq<Entry>, i: nat, p: Entry -> bool)
    requires i < |rows|
    ensures Filter(rows[..i + 1], p) == Filter(rows[..i], p) + if p(rows[i]) then [rows[i]] else []
  {
    FilterAppend(rows[..i], [rows[i]], p);
    FilterOne(rows[i], p);
    assert rows[..i + 1] == rows[..i] + [rows[i]];
  }

  method FilterRows(o: Options, rows: seq<Entry>) returns (r: seq<Entry>)
    ensures r == Filtered(o, rows)
  {
    if !AnyFilter(o) {
      return rows;
    }
    r := [];
    for i := 0 to |rows|
      invariant r == Filter(rows[..i], Accepted(o))
    {
      var ok := AcceptEntry(o, rows[i]);
      FilterStep(rows, i, Accepted(o));
      if ok {
        r := r + [rows[i]];
      }
    }
    assert rows[..|rows|] == rows;
  }

  method Custom(h: Host, o: Options, cwd: Option<string>, term: string, env: Environment, isDangerous: bool)
    returns (rows: seq<Entry>)
    ensures rows == Listing(h, o, cwd, term, env, isDangerous)
  {
    var dir := CurrentDirectory(if o.rootDirectory.Some? then o.rootDirectory else cwd, term, env);
    var out := h.ls(dir);
    if out.None? {
      return [];
    }
    var lines := SortListing(Split(out.value, '\n'), [".DS_Store"], h.lower, h.le);
    rows := Collect(lines, o.showFolders, isDangerous);
    rows := FilterRows(o, rows);
    rows := Edited(o, rows);
  }

  lemma {:induction false} CollectedAppend(a: seq<string>, b: seq<string>, show: ShowFolders, isDangerous: bool)
    ensures Collected(a + b, show, isDangerous) == Collected(a, show, isDangerous) + Collected(b, show, isDangerous)
  {
    FilterAppend(a, b, Shown(show));
    MapAppend(Filter(a, Shown(show)), Filter(b, Shown(show)), RowOf(isDangerous));
  }

  lemma {:induction false} CollectedOne(line: string, show: ShowFolders, isDangerous: bool)
    ensures Collected([line], show, isDangerous)
         == if ShownLine(show, line) then [RowOf(isDangerous)(line)] else []
  {
  }

  lemma {:induction false} CollectedSnoc(a: seq<string>, line: string, show: ShowFolders, isDangerous: bool)
    ensures Collected(a + [line], show, isDangerous)
         == Collected(a, show, isDangerous) + if ShownLine(show, line) then [RowOf(isDangerous)(line)] else []
  {
    CollectedAppend(a, [line], show, isDangerous);
    CollectedOne(line, show, isDangerous);
  }

  lemma {:induction false} RowsAppend(o: Options, a: seq<string>, b: seq<string>, isDangerous: bool)
    ensures Rows(o, a + b, isDangerous) == Rows(o, a, isDangerous) + Rows(o, b, isDangerous)
  {
    CollectedAppend(a, b, o.showFolders, isDangerous);
    var x, y := Collected(a, o.showFolders, isDangerous), Collected(b, o.showFolders, isDangerous);
    FilterAppend(x, y, Accepted(o));
    MapAppend(Filtered(o, x), Filtered(o, y), EditRow(o));
  }

  // ----- main results

  /** Collecting keeps the shown lines in order, each as a row that inserts it and knows what it is. */
  lemma {:induction false} CollectedExact(lines: seq<string>, show: ShowFolders, isDangerous: bool, i: nat)
    ensures var shown := Filter(lines, Shown(show));
      && |Collected(lines, show, isDangerous)| == |shown|
      && (i < |shown| ==>
            var row := Collected(lines, show, isDangerous)[i];
            && row.name == row.insertValue == shown[i] != ""
            && row.isDangerous == isDangerous
            && (row.kind == Folder <==> EndsWith(row.name, '/'))
            && row.templateType == (if row.kind == Folder then "folders" else "filepaths")
            && (row.kind == Folder ==> show != Never) && (row.kind == File ==> show != Only))
    ensures forall line :: line in lines && line != "" && show == Always ==> line in Filter(lines, Shown(show))
  {
    var shown := Filter(lines, Shown(show));
    if i < |shown| {
      assert shown[i] in shown && Shown(show)(shown[i]);
    }
  }

  /** The row passes, in the terms of the options: unfiltered, a free folder, named, matched or by extension. */
  ghost predicate Passes(o: Options, e: Entry) {
    || (o.extensions in {One(""), Many([])} && o.equals in {One(""), Many([])} && o.matches == None)
    || (e.kind == Folder && !o.filterFolders)
    || (o.equals.Many? && e.name in o.equals.texts)
    || (o.equals.One? && |e.name| == 1 && e.name[0] in o.equals.text)
    || (o.matches.Some? && o.matches.value(e.name))
    || (exists i :: 0 <= i < |e.name| && e.name[i] == '.' && IsExtension(o.extensions, e.name[i + 1..]))
  }

  predicate IsExtension(n: Names, x: string) {
    match n
    case One(text) => |x| == 1 && x[0] in text
    case Many(texts) => x in texts
  }

  lemma {:induction false} MembersExact(n: Names, x: string)
    ensures x in Members(n) <==> IsExtension(n, x)
    ensures Length(n) == 0 <==> n in {One(""), Many([])}
  {
    if n.One? && |x| == 1 {
      assert x == [x[0]];
    }
  }

  lemma {:induction false} PassesExact(o: Options, e: Entry)
    ensures !AnyFilter(o) || AcceptedEntry(o, e) <==> Passes(o, e)
  {
    MembersExact(o.equals, e.name);
    MembersExact(o.extensions, "");
    forall i | 0 <= i < |e.name| && e.name[i] == '.'
      ensures e.name[i + 1..] in Members(o.extensions) <==> IsExtension(o.extensions, e.name[i + 1..])
    {
      MembersExact(o.extensions, e.name[i + 1..]);
    }
  }

  ghost function Passing(o: Options): (p: Entry -> bool) {
    (e: Entry) => Passes(o, e)
  }

  lemma {:induction false} FilterAll(rows: seq<Entry>, p: Entry -> bool)
    requires forall e :: e in rows ==> p(e)
    ensures Filter(rows, p) == rows
  {
    if rows == [] {
    } else {
      assert rows[0] in rows;
      FilterAll(rows[1..], p);
    }
  }

  /** The filter keeps exactly the rows that pass, in order. */
  lemma {:induction false} FilteredExact(o: Options, rows: seq<Entry>)
    ensures Filtered(o, rows) == Filter(rows, Passing(o))
  {
    forall e: Entry
      ensures !AnyFilter(o) || AcceptedEntry(o, e) <==> Passes(o, e)
    {
      PassesExact(o, e);
    }
    if AnyFilter(o) {
      FilterAgree(rows, Accepted(o), Passing(o));
    } else {
      FilterAll(rows, Passing(o));
    }
  }

  /**
   * The rows of the answer are the rows of the shown lines that pass, in order: a file changed by the
   * file edit if there is one, a folder by the folder edit if there is one, and otherwise unchanged.
   */
  lemma {:induction false} RowsExact(o: Options, lines: seq<string>, isDangerous: bool, i: nat)
    ensures var passed := Filter(Collected(lines, o.showFolders, isDangerous), Passing(o));
      && |Rows(o, lines, isDangerous)| == |passed|
      && (i < |passed| ==>
            var e, row := passed[i], Rows(o, lines, isDangerous)[i];
            && (e.kind == File && o.editFile.Some? ==> row == o.editFile.value(e))
            && (e.kind == Folder && o.editFolder.Some? ==> row == o.editFolder.value(e))
            && (e.kind == File && o.editFile.None? ==> row == e)
            && (e.kind == Folder && o.editFolder.None? ==> row == e))
  {
    FilteredExact(o, Collected(lines, o.showFolders, isDangerous));
  }

  /**
   * A string for `equals`, as in cargo's `"Cargo.toml"`, is read as the set of its characters: it lets
   * the names of one such character pass, and never itself if it is longer.
   */
  lemma {:induction false} EqualsStringIsCharacters(o: Options, e: Entry)
    requires o.equals.One? && o.extensions == Many([]) && o.matches.None? && e.kind == File && o.equals.text != ""
    ensures Filtered(o, [e]) == if |e.name| == 1 && e.name[0] in o.equals.text then [e] else []
    ensures e.name == o.equals.text && |e.name| > 1 ==> Filtered(o, [e]) == []
  {
    FilteredExact(o, [e]);
    FilterOne(e, Passing(o));
  }

  /**
   * `showFolders` partitions the listing: whatever the filters and edits, the "always" rows are an
   * order-preserving merge of the "only" rows and the "never" rows.
   */
  lemma {:induction false} ShowFoldersPartitions(o: Options, lines: seq<string>, isDangerous: bool)
    ensures Interleaves(Rows(o.(showFolders := Only), lines, isDangerous),
                        Rows(o.(showFolders := Never), lines, isDangerous),
                        Rows(o.(showFolders := Always), lines, isDangerous))
  {
    if lines == [] {
    } else {
      var line, rest := lines[0], lines[1..];
      assert lines == [line] + rest;
      var e := RowFrom(o, RowOf(isDangerous)(line));
      RowsCons(o, Only, line, rest, isDangerous);
      RowsCons(o, Never, line, rest, isDangerous);
      RowsCons(o, Always, line, rest, isDangerous);
      ShowFoldersPartitions(o, rest, isDangerous);
      var only := Rows(o.(showFolders := Only), rest, isDangerous);
      var never := Rows(o.(showFolders := Never), rest, isDangerous);
      InterleavesPrepend(e, only, never, Rows(o.(showFolders := Always), rest, isDangerous));
    }
  }

  /** The row a collected entry ends up as, if the filter lets it through. */
  ghost function RowFrom(o: Options, e: Entry): (r: seq<Entry>) {
    Edited(o, Filtered(o, [e]))
  }

  lemma {:induction false} RowsCons(o: Options, show: ShowFolders, line: string, rest: seq<string>, isDangerous: bool)
    ensures var o' := o.(showFolders := show);
      var e := RowFrom(o, RowOf(isDangerous)(line));
      && |e| <= 1
      && Rows(o', [line] + rest, isDangerous)
         == if ShownLine(show, line) then e + Rows(o', rest, isDangerous) else Rows(o', rest, isDangerous)
  {
    var o' := o.(showFolders := show);
    RowsAppend(o', [line], rest, isDangerous);
    CollectedOne(line, show, isDangerous);
    if ShownLine(show, line) {
      RowFromSettings(o, show, RowOf(isDangerous)(line));
    } else {
      assert Rows(o', [line], isDangerous) == [];
    }
  }

  lemma {:induction false} RowFromSettings(o: Options, show: ShowFolders, e: Entry)
    ensures |RowFrom(o, e)| <= 1
    ensures RowFrom(o.(showFolders := show), e) == RowFrom(o, e)
  {
  }

  lemma {:induction false} ShowFoldersConserves(o: Options, lines: seq<string>, isDangerous: bool)
    ensures var only := Rows(o.(showFolders := Only), lines, isDangerous);
      var never := Rows(o.(showFolders := Never), lines, isDangerous);
      var always := Rows(o.(showFolders := Always), lines, isDangerous);
      && multiset(only) + multiset(never) == multiset(always)
      && Subsequence(only, always) && Subsequence(never, always)
  {
    ShowFoldersPartitions(o, lines, isDangerous);
    InterleavingConserves(Rows(o.(showFolders := Only), lines, isDangerous),
                          Rows(o.(showFolders := Never), lines, isDangerous),
                          Rows(o.(showFolders := Always), lines, isDangerous));
  }

  /** The directory that is listed: below the configured root if there is one, else the working directory. */
  lemma {:induction false} ListingExact(h: Host, o: Options, cwd: Option<string>, term: string, env: Environment,
      isDangerous: bool)
    ensures var dir := CurrentDirectory(if o.rootDirectory == None then cwd else o.rootDirectory, term, env);
      && (h.ls(dir) == None ==> Listing(h, o, cwd, term, env, isDangerous) == [])
      && (h.ls(dir).Some? ==>
           Listing(h, o, cwd, term, env, isDangerous)
           == Rows(o, SortListing(Split(h.ls(dir).value, '\n'), [".DS_Store"], h.lower, h.le), isDangerous))
  {
  }

  /**
   * End to end, for `custom` under its own trigger: while the file system stands still, the answer
   * for the term of the last run is the answer for the current term, after any edits, for settled tokens.
   */
  lemma {:induction false} ReusedRowsAreFresh(h: Host, o: Options, cwd: Option<string>, env: Environment,
      isDangerous: bool, first: string, terms: seq<string>)
    requires !CopiesRest(Home(env))
    ensures var s := Run(PathTrigger, Start(first), terms);
      Settled(s.computedFor) && Settled(s.term) ==>
        Listing(h, o, cwd, s.computedFor, env, isDangerous) == Listing(h, o, cwd, s.term, env, isDangerous)
  {
    ReuseIsSound(if o.rootDirectory.Some? then o.rootDirectory else cwd, env, first, terms);
  }
}

/** Suggestion rows, the suffixing of their inserted text, and the removal of used ones. */
module Suggestions {
  import opened Seqs
  import opened Js

  datatype Name = Unnamed | Single(text: string) | Aliases(texts: seq<string>)

  /** `detail` holds every other property of the row; no generator here looks at it. */
  datatype Row = Row(name: Name, insertValue: Option<string>, detail: map<string, string>)

  /** What JavaScript's `+` makes of a name. */
  function NameText(n: Name): (r: string) {
    match n
    case Unnamed => "undefined"
    case Single(text) => text
    case Aliases(texts) => Join(texts, ',')
  }

  /** The row already says what to insert: `insertValue` is neither absent nor empty. */
  predicate HasInsert(r: Row) {
    r.insertValue.Some? && r.insertValue.value != ""
  }

  function Suffixed(suffix: string): (f: Row -> Row) {
    (r: Row) => if HasInsert(r) then r else r.(insertValue := Some(NameText(r.name) + suffix))
  }

  /** Give every row without an inserted text its name followed by `suffix`. */
  function AddSuffix(suffix: string, rows: seq<Row>): (r: seq<Row>) {
    if suffix == "" then rows else Map(rows, Suffixed(suffix))
  }

  /** A plain string as a row. */
  function PlainRow(text: string): (r: Row) {
    Row(Single(text), None, map[])
  }

  predicate IsUsed(used: seq<string>, r: Row) {
    match r.name
    case Unnamed => false
    case Single(text) => text in used
    case Aliases(texts) => exists t | t in texts :: t in used
  }

  function Unused(used: seq<string>): (p: Row -> bool) {
    (r: Row) => !IsUsed(used, r)
  }

  /** Drop the rows one of whose names is used. */
  function Exclude(used: seq<string>, rows: seq<Row>): (r: seq<Row>) {
    Filter(rows, Unused(used))
  }

  /** A row that is not used at all is not used under any single used name. */
  lemma {:induction false} UnusedEach(used: seq<string>, x: string, r: Row)
    requires x in used && !IsUsed(used, r)
    ensures !IsUsed([x], r)
  {
  }

  /** Exactly the rows remain, in order, whose name is not used; with several names, none of them. */
  lemma {:induction false} ExcludeExact(used: seq<string>, rows: seq<Row>)
    ensures Exclude(used, rows) == Filter(rows, Unused(used))
    ensures forall r :: r in Exclude(used, rows) <==>
      && r in rows
      && (r.name.Single? ==> r.name.text !in used)
      && (r.name.Aliases? ==> forall k :: 0 <= k < |r.name.texts| ==> r.name.texts[k] !in used)
  {
    forall r: Row
      ensures IsUsed(used, r) <==>
        || (r.name.Single? && r.name.text in used)
        || (r.name.Aliases? && exists k :: 0 <= k < |r.name.texts| && r.name.texts[k] in used)
    {
      if r.name.Aliases? && IsUsed(used, r) {
        var t :| t in r.name.texts && t in used;
        var k :| 0 <= k < |r.name.texts| && r.name.texts[k] == t;
      }
    }
  }

  // ----- suffixing

  /** Suffixing keeps the rows, their names and details, and any inserted text already there. */
  lemma {:induction false} SuffixPreserves(s: string, rows: seq<Row>, i: nat)
    requires i < |rows|
    ensures |AddSuffix(s, rows)| == |rows|
    ensures var row, r := rows[i], AddSuffix(s, rows)[i];
      && r.name == row.name && r.detail == row.detail
      && (s == "" || (row.insertValue.Some? && row.insertValue.value != "") ==> r == row)
      && (s != "" && row.insertValue in {None, Some("")} ==>
           && (row.name.Single? ==> r.insertValue == Some(row.name.text + s))
           && (row.name.Aliases? ==> r.insertValue == Some(Join(row.name.texts, ',') + s))
           && (row.name.Unnamed? ==> r.insertValue == Some("undefined" + s)))
  {
  }

  /** Plain strings become rows of that name, which insert the string and the suffix, or nothing special. */
  lemma {:induction false} PlainRowsExact(s: string, names: seq<string>, i: nat)
    requires i < |names|
    ensures |AddSuffix(s, Map(names, PlainRow))| == |names|
    ensures AddSuffix(s, Map(names, PlainRow))[i]
         == Row(Single(names[i]), if s == "" then None else Some(names[i] + s), map[])
  {
  }

  /** The first suffix wins: once rows carry a non-empty suffix, no later one changes them. */
  lemma {:induction false} FirstSuffixWins(s: string, t: string, rows: seq<Row>)
    requires s != ""
    ensures AddSuffix(t, AddSuffix(s, rows)) == AddSuffix(s, rows)
  {
  }

  /** Two suffixes give the same rows exactly when they are equal or every row already inserts something. */
  lemma {:induction false} SuffixesAgreeIff(s: string, t: string, rows: seq<Row>)
    ensures AddSuffix(s, rows) == AddSuffix(t, rows) <==> s == t || forall r :: r in rows ==> HasInsert(r)
  {
    var a, b := AddSuffix(s, rows), AddSuffix(t, rows);
    if forall r :: r in rows ==> HasInsert(r) {
      assert forall i :: 0 <= i < |rows| ==> a[i] == rows[i] && b[i] == rows[i];
    } else if s != t {
      var i :| 0 <= i < |rows| && !HasInsert(rows[i]);
      DifferentSuffixes(NameText(rows[i].name), s, t);
      assert a[i] != b[i];
    }
  }

  lemma {:induction false} DifferentSuffixes(x: string, s: string, t: string)
    requires s != t
    ensures x + s != x + t
  {
    assert (x + s)[|x|..] == s && (x + t)[|x|..] == t;
  }

  // ----- removing used rows from plain ones

  function NotIn(used: seq<string>): (p: string -> bool) {
    (x: string) => x !in used
  }

  function PlainWith(suffix: string): (f: string -> Row) {
    (text: string) => if suffix == "" then PlainRow(text) else Suffixed(suffix)(PlainRow(text))
  }

  lemma {:induction false} PlainRowsWith(suffix: string, names: seq<string>)
    ensures AddSuffix(suffix, Map(names, PlainRow)) == Map(names, PlainWith(suffix))
  {
  }

  /** Plain strings offered with a suffix, minus the used ones: suffixing and removal commute. */
  lemma {:induction false} ExcludePlain(used: seq<string>, suffix: string, names: seq<string>)
    ensures Exclude(used, AddSuffix(suffix, Map(names, PlainRow)))
         == AddSuffix(suffix, Map(Filter(names, NotIn(used)), PlainRow))
  {
    PlainRowsWith(suffix, names);
    PlainRowsWith(suffix, Filter(names, NotIn(used)));
    FilterMap(names, PlainWith(suffix), Unused(used), NotIn(used));
  }

  /** Two unfinished names hide the same of the free ones if equal, or if neither is one of them. */
  lemma {:induction false} FreeNamesAgreeIff(names: seq<string>, used: seq<string>, x: string, x': string)
    ensures var free := Filter(names, NotIn(used));
      Filter(names, NotIn(used + [x])) == Filter(names, NotIn(used + [x'])) <==>
        x == x' || (x !in free && x' !in free)
  {
    var a, b := Filter(names, NotIn(used + [x])), Filter(names, NotIn(used + [x']));
    if x !in Filter(names, NotIn(used)) && x' !in Filter(names, NotIn(used)) {
      FilterAgree(names, NotIn(used + [x]), NotIn(used + [x']));
    } else if x != x' {
      assert x !in a && x' !in b;
      assert x in b || x' in a;
    }
  }

  lemma {:induction false} PlainRowsInjective(suffix: string, a: seq<string>, b: seq<string>)
    ensures AddSuffix(suffix, Map(a, PlainRow)) == AddSuffix(suffix, Map(b, PlainRow)) <==> a == b
  {
  }
}

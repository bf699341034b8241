/**
 * What the engine keeps and shows of a generator's rows. It remembers the rows already filtered by
 * the query of the keystroke that computed them, without duplicates, and on reuse filters those
 * again by the current query.
 */
module EngineRows {
  import opened Seqs
  import opened Js
  import opened Sessions
  import opened QueryMatching

  /** `detail` holds every property that neither filtering nor deduplication looks at. */
  datatype Suggestion = Suggestion(
    name: string,
    kind: string,
    insertValue: Option<string>,
    hidden: bool,
    queryTerm: Option<string>,
    detail: map<string, string>)

  // ----- filtering

  function AsciiLower(c: char): (r: char) {
    if 'A' <= c <= 'Z' then c - 'A' + 'a' else c
  }

  /** A hidden row shows only for its exact name. */
  predicate IsVisible(row: Suggestion, query: string) {
    !row.hidden || Map(row.name, AsciiLower) == Map(query, AsciiLower)
  }

  function TrimSlashes(s: string): (r: string) {
    if EndsWith(s, '/') then TrimSlashes(s[..|s| - 1]) else s
  }

  /** The last component of a path. */
  function Basename(name: string): (r: string) {
    After(TrimSlashes(name), '/')
  }

  predicate IsPath(row: Suggestion) {
    row.kind == "file" || row.kind == "folder"
  }

  /** The filter on the rows of a JavaScript generator when they are computed. */
  function Kept(m: Matcher, query: string): (p: Suggestion -> bool) {
    (row: Suggestion) => MatchesQuery(m, row.name, query) && IsVisible(row, query)
  }

  /** The filter on remembered rows; a path row may also match by its last component. */
  function Rekept(m: Matcher, query: string): (p: Suggestion -> bool) {
    (row: Suggestion) =>
      && (|| query == "" || MatchesQuery(m, row.name, query)
          || (IsPath(row) && MatchesQuery(m, Basename(row.name), query)))
      && IsVisible(row, query)
  }

  /** The same letter, but for ASCII case. */
  predicate SameLetter(a: char, b: char) {
    || a == b
    || ('A' <= a <= 'Z' && b as int == a as int + 32)
    || ('A' <= b <= 'Z' && a as int == b as int + 32)
  }

  lemma {:induction false} AsciiLowerExact(a: char, b: char)
    ensures AsciiLower(a) == AsciiLower(b) <==> SameLetter(a, b)
  {
  }

  /** The two filters, in the terms of the row. */
  lemma {:induction false} FiltersExact(m: Matcher, q: string, row: Suggestion)
    ensures var shows := !row.hidden ||
        (|row.name| == |q| && forall i :: 0 <= i < |q| ==> SameLetter(row.name[i], q[i]));
      && (Kept(m, q)(row) <==> shows && MatchesQuery(m, row.name, q))
      && (Rekept(m, q)(row) <==>
           shows && (MatchesQuery(m, row.name, q) ||
                     (row.kind in {"file", "folder"} && MatchesQuery(m, Basename(row.name), q))))
  {
    var a, b := Map(row.name, AsciiLower), Map(q, AsciiLower);
    forall i | 0 <= i < |row.name| && i < |q|
      ensures a[i] == b[i] <==> SameLetter(row.name[i], q[i])
    {
      AsciiLowerExact(row.name[i], q[i]);
    }
    assert a == b <==> |row.name| == |q| && forall i :: 0 <= i < |q| ==> SameLetter(row.name[i], q[i]) by {
      if |row.name| == |q| && forall i :: 0 <= i < |q| ==> SameLetter(row.name[i], q[i]) {
        assert forall i :: 0 <= i < |a| ==> a[i] == b[i];
      } else if |row.name| == |q| {
        var i :| 0 <= i < |q| && !SameLetter(row.name[i], q[i]);
        assert a[i] != b[i];
      }
    }
  }

  lemma {:induction false} TrimmedPath(s: string, slashes: string)
    requires !EndsWith(s, '/') && forall i :: 0 <= i < |slashes| ==> slashes[i] == '/'
    ensures TrimSlashes(s + slashes) == s
  {
    if slashes == "" {
      assert s + slashes == s;
    } else {
      var fewer := slashes[..|slashes| - 1];
      assert (s + slashes)[..|s + slashes| - 1] == s + fewer;
      TrimmedPath(s, fewer);
    }
  }

  /** The last component is what stands between the last two slashes that are not at the end. */
  lemma {:induction false} BasenameExact(dir: string, last: string, slashes: string)
    requires (dir == "" || EndsWith(dir, '/')) && last != "" && '/' !in last
    requires forall i :: 0 <= i < |slashes| ==> slashes[i] == '/'
    ensures Basename(dir + last + slashes) == last
  {
    assert (dir + last)[|dir + last| - 1] == last[|last| - 1] && last[|last| - 1] in last;
    TrimmedPath(dir + last, slashes);
    ThroughUnique(dir, last, '/');
  }

  // ----- removing duplicates

  /** What duplicates share in the final list, and whether the row is hidden. */
  datatype Key = Key(name: string, kind: string, insertValue: Option<string>, hidden: bool)

  function SessionKey(row: Suggestion): (k: Key) {
    Key(row.name, row.kind, row.insertValue, row.hidden)
  }

  /** In the final list hidden and visible rows count as duplicates of each other. */
  function OutputKey(row: Suggestion): (k: Key) {
    SessionKey(row).(hidden := false)
  }

  /** The first row of each key not seen before. */
  function Unique(seen: set<Key>, rows: seq<Suggestion>, key: Suggestion -> Key): (r: seq<Suggestion>)
    decreases |rows|
  {
    if rows == [] then []
    else if key(rows[0]) in seen then Unique(seen, rows[1..], key)
    else [rows[0]] + Unique(seen + {key(rows[0])}, rows[1..], key)
  }

  lemma {:induction false} UniqueWithin(seen: set<Key>, rows: seq<Suggestion>, key: Suggestion -> Key)
    ensures forall row :: row in Unique(seen, rows, key) ==> row in rows
    decreases |rows|
  {
    if rows == [] {
    } else {
      UniqueWithin(if key(rows[0]) in seen then seen else seen + {key(rows[0])}, rows[1..], key);
    }
  }

  function KeysSeen(rows: seq<Suggestion>, key: Suggestion -> Key): (s: set<Key>) {
    set row | row in rows :: key(row)
  }

  lemma {:induction false} UniqueSnoc(seen: set<Key>, rows: seq<Suggestion>, x: Suggestion, key: Suggestion -> Key)
    ensures Unique(seen, rows + [x], key)
         == Unique(seen, rows, key) + if key(x) in seen + KeysSeen(rows, key) then [] else [x]
    decreases |rows|
  {
    if rows == [] {
      assert rows + [x] == [x] && [x][1..] == [];
    } else {
      var first, rest := rows[0], rows[1..];
      assert (rows + [x])[1..] == rest + [x] && rows == [first] + rest;
      assert KeysSeen(rows, key) == {key(first)} + KeysSeen(rest, key);
      UniqueSnoc(if key(first) in seen then seen else seen + {key(first)}, rest, x, key);
    }
  }

  /** Duplicates in the session: the same name, kind and inserted text, both hidden or both not. */
  predicate SameRow(a: Suggestion, b: Suggestion) {
    a.name == b.name && a.kind == b.kind && a.insertValue == b.insertValue && a.hidden == b.hidden
  }

  /** Duplicates in the final list. */
  predicate SameShown(a: Suggestion, b: Suggestion) {
    a.name == b.name && a.kind == b.kind && a.insertValue == b.insertValue
  }

  /** The rows that duplicate none before them. */
  ghost function Firsts(rows: seq<Suggestion>, same: (Suggestion, Suggestion) -> bool): (r: seq<Suggestion>) {
    if rows == [] then []
    else
      var init, x := rows[..|rows| - 1], rows[|rows| - 1];
      Firsts(init, same) + if exists j :: 0 <= j < |init| && same(init[j], x) then [] else [x]
  }

  lemma {:induction false} UniqueIsFirsts(rows: seq<Suggestion>, key: Suggestion -> Key,
      same: (Suggestion, Suggestion) -> bool)
    requires forall a, b :: key(a) == key(b) <==> same(a, b)
    ensures Unique({}, rows, key) == Firsts(rows, same)
    decreases |rows|
  {
    if rows == [] {
    } else {
      var init, x := rows[..|rows| - 1], rows[|rows| - 1];
      assert rows == init + [x];
      UniqueSnoc({}, init, x, key);
      UniqueIsFirsts(init, key, same);
      assert key(x) in KeysSeen(init, key) <==> exists j :: 0 <= j < |init| && same(init[j], x);
    }
  }

  lemma {:induction false} DedupStep(rows: seq<Suggestion>, i: nat)
    requires i < |rows|
    ensures KeysSeen(rows[..i + 1], SessionKey) == KeysSeen(rows[..i], SessionKey) + {SessionKey(rows[i])}
    ensures Unique({}, rows[..i + 1], SessionKey) == Unique({}, rows[..i], SessionKey) +
      if SessionKey(rows[i]) in KeysSeen(rows[..i], SessionKey) then [] else [rows[i]]
  {
    UniqueSnoc({}, rows[..i], rows[i], SessionKey);
    assert rows[..i + 1] == rows[..i] + [rows[i]];
  }

  /** The session's deduplication: one pass that keeps the first row of each key. */
  method DedupSession(rows: seq<Suggestion>) returns (r: seq<Suggestion>)
    ensures r == Unique({}, rows, SessionKey) == Firsts(rows, SameRow)
  {
    UniqueIsFirsts(rows, SessionKey, SameRow);
    if |rows| <= 1 {
      return rows;
    }
    var seen: set<Key> := {};
    r := [];
    for i := 0 to |rows|
      invariant seen == KeysSeen(rows[..i], SessionKey)
      invariant r == Unique({}, rows[..i], SessionKey)
    {
      DedupStep(rows, i);
      if SessionKey(rows[i]) !in seen {
        r := r + [rows[i]];
      }
      seen := seen + {SessionKey(rows[i])};
    }
    assert rows[..|rows|] == rows;
  }

  /** A row with the given key and nothing else. */
  function RowWith(k: Key): (row: Suggestion) {
    Suggestion(k.name, k.kind, k.insertValue, k.hidden, None, map[])
  }

  /** The filter looks at nothing but the session key. */
  ghost predicate ByKey(p: Suggestion -> bool) {
    forall row :: p(row) == p(RowWith(SessionKey(row)))
  }

  lemma {:induction false} UniqueCons(seen: set<Key>, x: Suggestion, rows: seq<Suggestion>, key: Suggestion -> Key)
    ensures Unique(seen, [x] + rows, key)
         == if key(x) in seen then Unique(seen, rows, key) else [x] + Unique(seen + {key(x)}, rows, key)
  {
    assert ([x] + rows)[1..] == rows;
  }

  lemma {:induction false} FilterCons(x: Suggestion, rows: seq<Suggestion>, p: Suggestion -> bool)
    ensures Filter([x] + rows, p) == if p(x) then [x] + Filter(rows, p) else Filter(rows, p)
  {
    assert ([x] + rows)[1..] == rows;
  }

  /** The rows taken so far that pass the filter are in the final list already. */
  ghost predicate Covered(taken: set<Key>, seen: set<Key>, p: Suggestion -> bool) {
    forall k :: k in taken && p(RowWith(k)) ==> k.(hidden := false) in seen
  }

  lemma {:induction false} DedupFrom(taken: set<Key>, seen: set<Key>, rows: seq<Suggestion>, p: Suggestion -> bool)
    requires ByKey(p) && Covered(taken, seen, p)
    ensures Unique(seen, Filter(Unique(taken, rows, SessionKey), p), OutputKey)
         == Unique(seen, Filter(rows, p), OutputKey)
    decreases |rows|
  {
    if rows == [] {
    } else {
      var x, rest := rows[0], rows[1..];
      var k := SessionKey(x);
      assert rows == [x] + rest;
      FilterCons(x, rest, p);
      UniqueCons(taken, x, rest, SessionKey);
      if k in taken {
        DedupFrom(taken, seen, rest, p);
        SeenAlready(seen, x, Filter(rest, p), p);
      } else {
        var more := Unique(taken + {k}, rest, SessionKey);
        FilterCons(x, more, p);
        CoveredMore(taken, seen, x, p);
        DedupFrom(taken + {k}, if p(x) then seen + {OutputKey(x)} else seen, rest, p);
        SameHead(seen, x, Filter(more, p), Filter(rest, p), p);
      }
    }
  }

  lemma {:induction false} SeenAlready(seen: set<Key>, x: Suggestion, rows: seq<Suggestion>, p: Suggestion -> bool)
    requires p(x) ==> OutputKey(x) in seen
    ensures Unique(seen, if p(x) then [x] + rows else rows, OutputKey) == Unique(seen, rows, OutputKey)
  {
    UniqueCons(seen, x, rows, OutputKey);
  }

  lemma {:induction false} SameHead(seen: set<Key>, x: Suggestion, a: seq<Suggestion>, b: seq<Suggestion>,
      p: Suggestion -> bool)
    requires var seen' := if p(x) then seen + {OutputKey(x)} else seen;
      Unique(seen', a, OutputKey) == Unique(seen', b, OutputKey)
    ensures Unique(seen, if p(x) then [x] + a else a, OutputKey) == Unique(seen, if p(x) then [x] + b else b, OutputKey)
  {
    UniqueCons(seen, x, a, OutputKey);
    UniqueCons(seen, x, b, OutputKey);
    if OutputKey(x) in seen {
      assert seen + {OutputKey(x)} == seen;
    }
  }

  lemma {:induction false} CoveredMore(taken: set<Key>, seen: set<Key>, x: Suggestion, p: Suggestion -> bool)
    requires ByKey(p) && Covered(taken, seen, p)
    ensures Covered(taken + {SessionKey(x)}, if p(x) then seen + {OutputKey(x)} else seen, p)
  {
  }

  /**
   * The session's deduplication is invisible: whatever filter by key comes later, the final list is
   * the one it would be if the session had kept every row.
   */
  lemma {:induction false} SessionDedupIsInvisible(seen: set<Key>, rows: seq<Suggestion>, p: Suggestion -> bool)
    requires ByKey(p)
    ensures Unique(seen, Filter(Unique({}, rows, SessionKey), p), OutputKey)
         == Unique(seen, Filter(rows, p), OutputKey)
  {
    DedupFrom({}, seen, rows, p);
  }

  /** Rows without a query term get the current one, except those `skip` names by their name and kind. */
  function Stamp(query: string, skip: (string, string) -> bool): (f: Suggestion -> Suggestion) {
    (row: Suggestion) =>
      if row.queryTerm.Some? || skip(row.name, row.kind) then row else row.(queryTerm := Some(query))
  }

  /** A row is stamped once: its own term stays, then that of the generator, then that of the argument. */
  lemma {:induction false} FirstStampStays(q: string, q': string, skip: (string, string) -> bool,
      skip': (string, string) -> bool, row: Suggestion)
    ensures var r := Stamp(q', skip')(Stamp(q, skip)(row));
      r == row.(queryTerm :=
        if row.queryTerm.Some? then row.queryTerm
        else if !skip(row.name, row.kind) then Some(q)
        else if !skip'(row.name, row.kind) then Some(q')
        else None)
  {
  }

  /** Stamping the query term, which comes in between, does not interfere. */
  lemma {:induction false} StampCommutes(seen: set<Key>, rows: seq<Suggestion>, query: string,
      skip: (string, string) -> bool)
    ensures Unique(seen, Map(rows, Stamp(query, skip)), OutputKey)
         == Map(Unique(seen, rows, OutputKey), Stamp(query, skip))
    decreases |rows|
  {
    if rows == [] {
    } else {
      var f, x, rest := Stamp(query, skip), rows[0], rows[1..];
      assert Map(rows, f) == [f(x)] + Map(rest, f);
      UniqueCons(seen, f(x), Map(rest, f), OutputKey);
      StampCommutes(if OutputKey(x) in seen then seen else seen + {OutputKey(x)}, rest, query, skip);
    }
  }

  // ----- the session with its rows

  /** A generator of the library: its rows for a term, its query term and its trigger. */
  datatype Generator = Generator(custom: string -> seq<Suggestion>, query: string -> string, trigger: Trigger)

  /** The rows remembered, and those handed on by the last keystroke. */
  datatype Engine = Engine(session: Session, remembered: seq<Suggestion>, rows: seq<Suggestion>)

  function ComputedRows(m: Matcher, g: Generator, term: string): (r: seq<Suggestion>) {
    Unique({}, Filter(g.custom(term), Kept(m, g.query(term))), SessionKey)
  }

  function Begin(m: Matcher, g: Generator, term: string): (e: Engine) {
    Engine(Start(term), ComputedRows(m, g, term), ComputedRows(m, g, term))
  }

  function Keystroke(m: Matcher, g: Generator, e: Engine, next: string): (r: Engine) {
    var s := Advance(g.trigger, e.session, next);
    if g.trigger(next, e.session.term) then Engine(s, ComputedRows(m, g, next), ComputedRows(m, g, next))
    else Engine(s, e.remembered, Filter(e.remembered, Rekept(m, g.query(next))))
  }

  function Keystrokes(m: Matcher, g: Generator, e: Engine, terms: seq<string>): (r: Engine)
    decreases |terms|
  {
    if terms == [] then e else Keystrokes(m, g, Keystroke(m, g, e, terms[0]), terms[1..])
  }

  /** The final list, after rows of other origin whose keys are `seen`. */
  function Output(seen: set<Key>, rows: seq<Suggestion>): (r: seq<Suggestion>) {
    Unique(seen, rows, OutputKey)
  }

  /** It keeps the first of the rows that share name, kind and inserted text. */
  lemma {:induction false} OutputExact(rows: seq<Suggestion>)
    ensures Output({}, rows) == Firsts(rows, SameShown)
  {
    UniqueIsFirsts(rows, OutputKey, SameShown);
  }

  /** What reuse shows of rows computed for the query `q0`, and what recomputing them shows. */
  function Reused(m: Matcher, q0: string, q: string, rows: seq<Suggestion>): (r: seq<Suggestion>) {
    Filter(Filter(rows, Kept(m, q0)), Rekept(m, q))
  }

  function Recomputed(m: Matcher, q: string, rows: seq<Suggestion>): (r: seq<Suggestion>) {
    Filter(rows, Kept(m, q))
  }

  /** The rows of a computing keystroke all pass the refilter: it would change nothing. */
  lemma {:induction false} RefilterKeepsFresh(m: Matcher, q: string, rows: seq<Suggestion>)
    requires forall row :: row in rows ==> Kept(m, q)(row)
    ensures Filter(rows, Rekept(m, q)) == rows
  {
    if rows == [] {
    } else {
      assert rows[0] in rows && Rekept(m, q)(rows[0]);
      RefilterKeepsFresh(m, q, rows[1..]);
    }
  }

  lemma {:induction false} ComputedRefilters(m: Matcher, g: Generator, term: string)
    ensures Filter(ComputedRows(m, g, term), Rekept(m, g.query(term))) == ComputedRows(m, g, term)
  {
    UniqueWithin({}, Filter(g.custom(term), Kept(m, g.query(term))), SessionKey);
    RefilterKeepsFresh(m, g.query(term), ComputedRows(m, g, term));
  }

  ghost predicate InStep(m: Matcher, g: Generator, e: Engine) {
    && e.remembered == ComputedRows(m, g, e.session.computedFor)
    && e.rows == Filter(e.remembered, Rekept(m, g.query(e.session.term)))
  }

  lemma {:induction false} KeystrokesKeep(m: Matcher, g: Generator, e: Engine, terms: seq<string>)
    requires InStep(m, g, e)
    ensures var r := Keystrokes(m, g, e, terms);
      InStep(m, g, r) && r.session == Run(g.trigger, e.session, terms)
    decreases |terms|
  {
    if terms == [] {
    } else {
      ComputedRefilters(m, g, terms[0]);
      KeystrokesKeep(m, g, Keystroke(m, g, e, terms[0]), terms[1..]);
    }
  }

  lemma {:induction false} FiltersAreByKey(m: Matcher, q: string)
    ensures ByKey(Kept(m, q)) && ByKey(Rekept(m, q))
  {
  }

  lemma {:induction false} OutputOfComputed(seen: set<Key>, m: Matcher, g: Generator, term: string)
    ensures Output(seen, ComputedRows(m, g, term)) == Output(seen, Recomputed(m, g.query(term), g.custom(term)))
  {
    var q, rows := g.query(term), Recomputed(m, g.query(term), g.custom(term));
    FiltersAreByKey(m, q);
    ComputedRefilters(m, g, term);
    RefilterKeepsFresh(m, q, rows);
    SessionDedupIsInvisible(seen, rows, Rekept(m, q));
  }

  /**
   * What is shown after every run of keystrokes: the generator's rows for the computing term,
   * filtered by the query of that term and then by the current one.
   */
  lemma {:induction false} ShownExact(m: Matcher, g: Generator, first: string, terms: seq<string>, seen: set<Key>)
    ensures var s := Run(g.trigger, Start(first), terms);
      Output(seen, Keystrokes(m, g, Begin(m, g, first), terms).rows)
      == Output(seen, Reused(m, g.query(s.computedFor), g.query(s.term), g.custom(s.computedFor)))
  {
    var s := Run(g.trigger, Start(first), terms);
    ComputedRefilters(m, g, first);
    KeystrokesKeep(m, g, Begin(m, g, first), terms);
    FiltersAreByKey(m, g.query(s.term));
    SessionDedupIsInvisible(seen, Filter(g.custom(s.computedFor), Kept(m, g.query(s.computedFor))),
                            Rekept(m, g.query(s.term)));
  }
}

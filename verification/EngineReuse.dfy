/**
 * When the engine's reuse of remembered rows shows what running the generator again would: exact
 * conditions on the two queries, and what they mean for runs of `keyValue`.
 */
module EngineReuse {
  import opened Seqs
  import opened Js
  import opened Sessions
  import opened SuggestionCache
  import opened KeyValues
  import opened QueryMatching
  import opened EngineRows

  // ----- when reuse shows what recomputing would

  ghost predicate ReuseIsFresh(m: Matcher, q0: string, q: string, rows: seq<Suggestion>) {
    forall seen :: Output(seen, Reused(m, q0, q, rows)) == Output(seen, Recomputed(m, q, rows))
  }

  /** For this row the two filters of reuse say what the one of recomputing says. */
  predicate FiltersAgree(m: Matcher, q0: string, q: string, row: Suggestion) {
    Kept(m, q)(row) == (Kept(m, q0)(row) && Rekept(m, q)(row))
  }

  lemma {:induction false} AgreeingRowsAreFresh(m: Matcher, q0: string, q: string, rows: seq<Suggestion>)
    requires forall row :: row in rows ==> FiltersAgree(m, q0, q, row)
    ensures ReuseIsFresh(m, q0, q, rows)
  {
    FilterTwice(rows, Kept(m, q0), Rekept(m, q), Kept(m, q));
  }

  lemma {:induction false} OutputOne(row: Suggestion)
    ensures Output({}, [row]) == [row] && Output({}, []) == []
  {
    UniqueCons({}, row, [], OutputKey);
    assert [row] + [] == [row];
  }

  lemma {:induction false} OneRowIsFreshIff(m: Matcher, q0: string, q: string, row: Suggestion)
    ensures ReuseIsFresh(m, q0, q, [row]) <==> FiltersAgree(m, q0, q, row)
  {
    var p, r := Kept(m, q0), Rekept(m, q);
    var both := (x: Suggestion) => p(x) && r(x);
    FilterTwice([row], p, r, both);
    FilterOne(row, both);
    FilterOne(row, Kept(m, q));
    assert [row][1..] == [];
    if FiltersAgree(m, q0, q, row) {
      assert Reused(m, q0, q, [row]) == Recomputed(m, q, [row]);
    } else {
      OutputOne(row);
      assert Output({}, Reused(m, q0, q, [row])) != Output({}, Recomputed(m, q, [row]));
    }
  }

  ghost predicate Within(rows: seq<Suggestion>, family: Suggestion -> bool) {
    forall row :: row in rows ==> family(row)
  }

  /** For these queries reuse is right for every listing of the family. */
  ghost predicate ReuseIsRight(m: Matcher, q0: string, q: string, family: Suggestion -> bool) {
    forall rows :: Within(rows, family) ==> ReuseIsFresh(m, q0, q, rows)
  }

  /** Reuse is right for every listing of a family of rows exactly when the filters agree on each such row. */
  lemma {:induction false} ReuseIsFreshIff(m: Matcher, q0: string, q: string, family: Suggestion -> bool)
    ensures ReuseIsRight(m, q0, q, family)
       <==> (forall row :: family(row) ==> FiltersAgree(m, q0, q, row))
  {
    if forall row :: family(row) ==> FiltersAgree(m, q0, q, row) {
      forall rows | Within(rows, family)
        ensures ReuseIsFresh(m, q0, q, rows)
      {
        AgreeingRowsAreFresh(m, q0, q, rows);
      }
    }
    if ReuseIsRight(m, q0, q, family) {
      forall row | family(row)
        ensures FiltersAgree(m, q0, q, row)
      {
        assert Within([row], family);
        OneRowIsFreshIff(m, q0, q, row);
      }
    }
  }

  // ----- the exact condition, family by family

  predicate AnyRow(row: Suggestion) {
    true
  }

  predicate NoPathRow(row: Suggestion) {
    !IsPath(row)
  }

  predicate VisibleRow(row: Suggestion) {
    !row.hidden
  }

  predicate OrdinaryRow(row: Suggestion) {
    !row.hidden && !IsPath(row)
  }

  function PlainSuggestion(name: string, kind: string, hidden: bool): (row: Suggestion) {
    Suggestion(name, kind, None, hidden, None, map[])
  }

  /** Ordinary rows: the names that match the current query must have matched the computing one. */
  lemma {:induction false} OrdinaryAgreeIff(m: Matcher, q0: string, q: string, row: Suggestion)
    requires OrdinaryRow(row)
    ensures FiltersAgree(m, q0, q, row) <==> (MatchesQuery(m, row.name, q) ==> MatchesQuery(m, row.name, q0))
  {
  }

  /** For rows neither hidden nor paths, in either mode: exactly when the current query matches the computing one. */
  lemma {:induction false} OrdinaryReuseIff(m: Matcher, q0: string, q: string)
    ensures ReuseIsRight(m, q0, q, OrdinaryRow) <==> MatchesQuery(m, q, q0)
  {
    ReuseIsFreshIff(m, q0, q, OrdinaryRow);
    NarrowsIff(m, q0, q);
    OrdinaryAgreeIff(m, q0, q, PlainSuggestion(q, "", false));
    MatchesItself(m, q);
    forall row | OrdinaryRow(row) && MatchesQuery(m, q, q0)
      ensures FiltersAgree(m, q0, q, row)
    {
      OrdinaryAgreeIff(m, q0, q, row);
    }
  }

  /** The queries differ in case only, as both notions of case see it. */
  predicate SameQuery(m: Matcher, q0: string, q: string) {
    Lower(m, q0) == Lower(m, q) && Map(q0, AsciiLower) == Map(q, AsciiLower)
  }

  lemma {:induction false} SameQueryAgrees(m: Matcher, q0: string, q: string, row: Suggestion)
    requires SameQuery(m, q0, q)
    ensures FiltersAgree(m, q0, q, row)
  {
    MatchesExact(m, row.name, q0);
    MatchesExact(m, row.name, q);
  }

  /** A hidden row named as the current query tells the queries apart. */
  lemma {:induction false} HiddenTellsApart(m: Matcher, q0: string, q: string)
    requires FiltersAgree(m, q0, q, PlainSuggestion(q, "", true))
    ensures SameQuery(m, q0, q)
  {
    var row := PlainSuggestion(q, "", true);
    MatchesItself(m, q);
    assert Kept(m, q)(row) && Kept(m, q0)(row);
    assert |q0| == |Map(q0, AsciiLower)| == |Map(q, AsciiLower)| == |q|;
    SameLength(m, q0, q);
  }

  /**
   * Once hidden rows are possible, paths or not, in either mode: only when the query is the same but
   * for its case.
   */
  lemma {:induction false} AnyReuseIff(m: Matcher, q0: string, q: string)
    ensures ReuseIsRight(m, q0, q, AnyRow) <==> SameQuery(m, q0, q)
    ensures ReuseIsRight(m, q0, q, NoPathRow) <==> SameQuery(m, q0, q)
  {
    var row := PlainSuggestion(q, "", true);
    ReuseIsFreshIff(m, q0, q, AnyRow);
    ReuseIsFreshIff(m, q0, q, NoPathRow);
    assert AnyRow(row) && NoPathRow(row);
    if FiltersAgree(m, q0, q, row) {
      HiddenTellsApart(m, q0, q);
    }
    forall r | SameQuery(m, q0, q)
      ensures FiltersAgree(m, q0, q, r)
    {
      SameQueryAgrees(m, q0, q, r);
    }
  }

  // ----- visible rows, paths among them

  lemma {:induction false} TrimmedSlashes(name: string) returns (y: string)
    ensures name == TrimSlashes(name) + y
  {
    if !EndsWith(name, '/') {
      y := "";
    } else {
      var rest := TrimmedSlashes(name[..|name| - 1]);
      y := rest + "/";
    }
  }

  /** In fuzzy mode a name matches whatever its last component matches. */
  lemma {:induction false} BasenameMatches(m: Matcher, name: string, q: string)
    requires m.fuzzy && MatchesQuery(m, Basename(name), q)
    ensures MatchesQuery(m, name, q)
  {
    var y := TrimmedSlashes(name);
    var x, base := Through(TrimSlashes(name), '/'), Basename(name);
    ThroughAfter(TrimSlashes(name), '/');
    MapAppend(x + base, y, m.lower);
    MapAppend(x, base, m.lower);
    PartIsContained(Lower(m, x), Lower(m, base), Lower(m, y));
    MatchesExact(m, name, base);
    MatchesTransitive(m, name, base, q);
  }

  /** No other character is a slash in lower case. */
  ghost predicate SlashIsSlash(m: Matcher) {
    forall c :: m.lower(c) == m.lower('/') ==> c == '/'
  }

  /** In prefix mode a last component matches no query with a slash. */
  lemma {:induction false} BasenameHasNoSlash(m: Matcher, name: string, q: string)
    requires !m.fuzzy && SlashIsSlash(m) && MatchesQuery(m, Basename(name), q)
    ensures '/' !in q
  {
    var base := Basename(name);
    MatchesExact(m, base, q);
    ThroughAfter(TrimSlashes(name), '/');
    forall i | 0 <= i < |q|
      ensures q[i] != '/'
    {
      assert m.lower(q[i]) == Lower(m, q)[i] == Lower(m, base)[i] == m.lower(base[i]);
      assert base[i] in base;
    }
  }

  /** Without the last-component rule the two filters differ in the query only. */
  lemma {:induction false} VisibleAgrees(m: Matcher, q0: string, q: string, row: Suggestion)
    requires VisibleRow(row) && MatchesQuery(m, q, q0)
    requires MatchesQuery(m, Basename(row.name), q) ==> MatchesQuery(m, row.name, q)
    ensures FiltersAgree(m, q0, q, row)
  {
    if MatchesQuery(m, row.name, q) {
      MatchesTransitive(m, row.name, q, q0);
    }
  }

  /** A path refound by its last component only. */
  lemma {:induction false} RefoundDisagrees(m: Matcher, q0: string, q: string, row: Suggestion)
    requires IsPath(row) && !row.hidden && MatchesQuery(m, row.name, q0)
    requires MatchesQuery(m, Basename(row.name), q) && !MatchesQuery(m, row.name, q)
    ensures !FiltersAgree(m, q0, q, row)
  {
    assert Kept(m, q0)(row) && Rekept(m, q)(row) && !Kept(m, q)(row);
  }

  /** Such is the path of `q` below the directory `q0`. */
  lemma {:induction false} PathTellsApart(m: Matcher, q0: string, q: string)
    requires !m.fuzzy && SlashIsSlash(m) && '/' !in q && |q0| < |q|
    ensures !FiltersAgree(m, q0, q, PlainSuggestion(q0 + "/" + q, "file", false))
  {
    var name := q0 + "/" + q;
    BasenameBelow(q0, q);
    BelowIsNoMatch(m, q0, q);
    MatchesItself(m, q);
    BeginningMatches(m, q0, name);
    RefoundDisagrees(m, q0, q, PlainSuggestion(name, "file", false));
  }

  lemma {:induction false} BasenameBelow(q0: string, q: string)
    requires q != "" && '/' !in q
    ensures Basename(q0 + "/" + q) == q
  {
    BasenameExact(q0 + "/", q, "");
    assert q0 + "/" + q + "" == q0 + "/" + q;
  }

  lemma {:induction false} BelowIsNoMatch(m: Matcher, q0: string, q: string)
    requires !m.fuzzy && SlashIsSlash(m) && '/' !in q && |q0| < |q|
    ensures !MatchesQuery(m, q0 + "/" + q, q)
  {
    var name, i := q0 + "/" + q, |q0|;
    MatchesExact(m, name, q);
    assert Lower(m, name)[i] == m.lower('/') && Lower(m, q)[i] == m.lower(q[i]) && q[i] in q;
  }

  /**
   * For rows not hidden, paths among them. In fuzzy mode: exactly when the current query matches the
   * computing one. In prefix mode it must moreover be no longer, or have a slash.
   */
  lemma {:induction false} VisibleReuseIff(m: Matcher, q0: string, q: string)
    requires SlashIsSlash(m)
    ensures ReuseIsRight(m, q0, q, VisibleRow) <==>
      MatchesQuery(m, q, q0) && (m.fuzzy || |q0| == |q| || '/' in q)
  {
    ReuseIsFreshIff(m, q0, q, VisibleRow);
    var row := PlainSuggestion(q, "", false);
    OrdinaryAgreeIff(m, q0, q, row);
    MatchesItself(m, q);
    if MatchesQuery(m, q, q0) {
      MatchesExact(m, q, q0);
      if m.fuzzy || |q0| == |q| || '/' in q {
        forall r | VisibleRow(r)
          ensures FiltersAgree(m, q0, q, r)
        {
          VisiblePathAgrees(m, q0, q, r);
        }
      } else {
        PathTellsApart(m, q0, q);
        assert VisibleRow(PlainSuggestion(q0 + "/" + q, "file", false));
      }
    }
  }

  lemma {:induction false} VisiblePathAgrees(m: Matcher, q0: string, q: string, row: Suggestion)
    requires SlashIsSlash(m) && VisibleRow(row) && MatchesQuery(m, q, q0)
    requires m.fuzzy || |q0| == |q| || '/' in q
    ensures FiltersAgree(m, q0, q, row)
  {
    if !m.fuzzy && '/' !in q {
      SameLength(m, q0, q);
      MatchesExact(m, row.name, q0);
      MatchesExact(m, row.name, q);
    } else {
      if MatchesQuery(m, Basename(row.name), q) {
        if m.fuzzy {
          BasenameMatches(m, row.name, q);
        } else {
          BasenameHasNoSlash(m, row.name, q);
        }
      }
      VisibleAgrees(m, q0, q, row);
    }
  }

  // ----- whole runs of `keyValue`

  /** `keyValue` as the engine sees it; `answer` is whatever its requests are answered with. */
  function KeyValueGenerator(cfg: Config, answer: Call -> seq<Suggestion>): (g: Generator) {
    Generator((term: string) => answer(Request(cfg, term, [])),
              (term: string) => KeyValueQuery(cfg.separator, term),
              KeyValueTrigger(cfg.separator))
  }

  /** After the run, the final list is that of a fresh computation. */
  ghost predicate ShowsFresh(m: Matcher, g: Generator, first: string, terms: seq<string>) {
    forall seen :: Output(seen, Keystrokes(m, g, Begin(m, g, first), terms).rows)
                == Output(seen, Begin(m, g, Run(g.trigger, Start(first), terms).term).rows)
  }

  lemma {:induction false} ShowsFreshIff(m: Matcher, g: Generator, first: string, terms: seq<string>)
    requires var s := Run(g.trigger, Start(first), terms); g.custom(s.computedFor) == g.custom(s.term)
    ensures var s := Run(g.trigger, Start(first), terms);
      ShowsFresh(m, g, first, terms) <==> ReuseIsFresh(m, g.query(s.computedFor), g.query(s.term), g.custom(s.term))
  {
    var s := Run(g.trigger, Start(first), terms);
    forall seen: set<Key>
      ensures Output(seen, Keystrokes(m, g, Begin(m, g, first), terms).rows)
           == Output(seen, Reused(m, g.query(s.computedFor), g.query(s.term), g.custom(s.term)))
      ensures Output(seen, Begin(m, g, s.term).rows)
           == Output(seen, Recomputed(m, g.query(s.term), g.custom(s.term)))
    {
      ShownExact(m, g, first, terms, seen);
      OutputOfComputed(seen, m, g, s.term);
    }
  }

  lemma {:induction false} KeyValueShowsFreshIff(m: Matcher, cfg: Config, answer: Call -> seq<Suggestion>,
      first: string, terms: seq<string>)
    ensures var s := Run(KeyValueTrigger(cfg.separator), Start(first), terms);
      var q0, q := KeyValueQuery(cfg.separator, s.computedFor), KeyValueQuery(cfg.separator, s.term);
      ShowsFresh(m, KeyValueGenerator(cfg, answer), first, terms) <==>
        ReuseIsFresh(m, q0, q, answer(Request(cfg, s.term, [])))
  {
    KeyValueReuse(cfg, first, terms, []);
    ShowsFreshIff(m, KeyValueGenerator(cfg, answer), first, terms);
  }

  function Constantly(rows: seq<Suggestion>): (answer: Call -> seq<Suggestion>) {
    (c: Call) => rows
  }

  lemma {:induction false} RunIsRight(m: Matcher, cfg: Config, family: Suggestion -> bool,
      answer: Call -> seq<Suggestion>, first: string, terms: seq<string>)
    requires var s := Run(KeyValueTrigger(cfg.separator), Start(first), terms);
      ReuseIsRight(m, KeyValueQuery(cfg.separator, s.computedFor), KeyValueQuery(cfg.separator, s.term), family)
    requires forall c :: Within(answer(c), family)
    ensures ShowsFresh(m, KeyValueGenerator(cfg, answer), first, terms)
  {
    KeyValueShowsFreshIff(m, cfg, answer, first, terms);
  }

  lemma {:induction false} RunTellsRows(m: Matcher, cfg: Config, rows: seq<Suggestion>,
      first: string, terms: seq<string>)
    requires ShowsFresh(m, KeyValueGenerator(cfg, Constantly(rows)), first, terms)
    ensures var s := Run(KeyValueTrigger(cfg.separator), Start(first), terms);
      ReuseIsFresh(m, KeyValueQuery(cfg.separator, s.computedFor), KeyValueQuery(cfg.separator, s.term), rows)
  {
    KeyValueShowsFreshIff(m, cfg, Constantly(rows), first, terms);
  }

  /**
   * Key/value tokens end to end, over every run of arbitrary edits: the engine shows what a fresh
   * computation would, whatever rows of the family the requests are answered with, exactly when reuse
   * is right for that family between the query of the last computation and the current one.
   */
  lemma {:induction false} KeyValueRunExact(m: Matcher, cfg: Config, family: Suggestion -> bool,
      first: string, terms: seq<string>)
    ensures var s := Run(KeyValueTrigger(cfg.separator), Start(first), terms);
      (forall answer: Call -> seq<Suggestion> :: (forall c :: Within(answer(c), family)) ==>
         ShowsFresh(m, KeyValueGenerator(cfg, answer), first, terms))
      <==> ReuseIsRight(m, KeyValueQuery(cfg.separator, s.computedFor), KeyValueQuery(cfg.separator, s.term), family)
  {
    var s := Run(KeyValueTrigger(cfg.separator), Start(first), terms);
    var q0, q := KeyValueQuery(cfg.separator, s.computedFor), KeyValueQuery(cfg.separator, s.term);
    if ReuseIsRight(m, q0, q, family) {
      forall answer: Call -> seq<Suggestion> | forall c :: Within(answer(c), family)
        ensures ShowsFresh(m, KeyValueGenerator(cfg, answer), first, terms)
      {
        RunIsRight(m, cfg, family, answer, first, terms);
      }
    }
    if forall answer: Call -> seq<Suggestion> :: (forall c :: Within(answer(c), family)) ==>
         ShowsFresh(m, KeyValueGenerator(cfg, answer), first, terms) {
      forall rows | Within(rows, family)
        ensures ReuseIsFresh(m, q0, q, rows)
      {
        assert forall c :: Within(Constantly(rows)(c), family);
        RunTellsRows(m, cfg, rows, first, terms);
      }
    }
  }

  predicate TypedAtEnd(old_: string, new_: string) {
    old_ <= new_
  }

  lemma {:induction false} KeyValueTyping(m: Matcher, sep: char, first: string, terms: seq<string>)
    requires Edits(TypedAtEnd, first, terms)
    ensures var s := Run(KeyValueTrigger(sep), Start(first), terms);
      MatchesQuery(m, KeyValueQuery(sep, s.term), KeyValueQuery(sep, s.computedFor))
  {
    var rel := (a: string, b: string) => KeyValueQuery(sep, a) <= KeyValueQuery(sep, b);
    forall a, b | TypedAtEnd(a, b) && !KeyValueTrigger(sep)(b, a)
      ensures rel(a, b)
    {
      assert IndexOf(a, sep) == IndexOf(b, sep);
    }
    RunKeeps(KeyValueTrigger(sep), TypedAtEnd, rel, Start(first), terms);
    var s := Run(KeyValueTrigger(sep), Start(first), terms);
    BeginningMatches(m, KeyValueQuery(sep, s.computedFor), KeyValueQuery(sep, s.term));
  }

  /**
   * As long as the user only types, the engine shows after every keystroke what a fresh computation
   * would, in either mode, if no row is hidden or a path.
   */
  lemma {:induction false} TypingShowsFresh(m: Matcher, cfg: Config, answer: Call -> seq<Suggestion>,
      first: string, terms: seq<string>)
    requires (forall c :: Within(answer(c), OrdinaryRow)) && Edits(TypedAtEnd, first, terms)
    ensures ShowsFresh(m, KeyValueGenerator(cfg, answer), first, terms)
  {
    var s := Run(KeyValueTrigger(cfg.separator), Start(first), terms);
    KeyValueTyping(m, cfg.separator, first, terms);
    OrdinaryReuseIff(m, KeyValueQuery(cfg.separator, s.computedFor), KeyValueQuery(cfg.separator, s.term));
    KeyValueRunExact(m, cfg, OrdinaryRow, first, terms);
  }

  // ----- where it shows too little or too much

  /** One row through one keystroke that does not trigger. */
  lemma {:induction false} OneRowKeystroke(m: Matcher, g: Generator, row: Suggestion, first: string, next: string)
    requires g.custom(first) == [row] && g.custom(next) == [row] && !g.trigger(next, first)
    ensures Begin(m, g, next).rows == (if Kept(m, g.query(next))(row) then [row] else [])
    ensures Keystroke(m, g, Begin(m, g, first), next).rows
         == if Kept(m, g.query(first))(row) && Rekept(m, g.query(next))(row) then [row] else []
  {
    OneRowComputed(m, g, row, first);
    OneRowComputed(m, g, row, next);
    FilterOne(row, Rekept(m, g.query(next)));
  }

  lemma {:induction false} OneRowComputed(m: Matcher, g: Generator, row: Suggestion, term: string)
    requires g.custom(term) == [row]
    ensures ComputedRows(m, g, term) == if Kept(m, g.query(term))(row) then [row] else []
  {
    FilterOne(row, Kept(m, g.query(term)));
    UniqueCons({}, row, [], SessionKey);
    assert [row] + [] == [row];
  }

  /** A generator that answers every key request with the same row. */
  ghost predicate Offers(cfg: Config, answer: Call -> seq<Suggestion>, row: Suggestion) {
    answer(Request(cfg, "", [])) == [row]
  }

  lemma {:induction false} KeyTerm(cfg: Config, answer: Call -> seq<Suggestion>, row: Suggestion, term: string)
    requires cfg.separator !in term && Offers(cfg, answer, row)
    ensures KeyValueGenerator(cfg, answer).custom(term) == [row] && KeyValueGenerator(cfg, answer).query(term) == term
  {
    Absent(term, cfg.separator);
    assert Request(cfg, term, []) == Request(cfg, "", []);
  }

  /** What is shown of that row after one edit of a partial key, and what a fresh computation shows. */
  lemma {:induction false} OneRowRun(m: Matcher, cfg: Config, answer: Call -> seq<Suggestion>,
      row: Suggestion, first: string, next: string)
    requires cfg.separator !in first && cfg.separator !in next && Offers(cfg, answer, row)
    ensures var g := KeyValueGenerator(cfg, answer);
      && Begin(m, g, next).rows == (if Kept(m, next)(row) then [row] else [])
      && Keystroke(m, g, Begin(m, g, first), next).rows
         == if Kept(m, first)(row) && Rekept(m, next)(row) then [row] else []
  {
    KeyTerm(cfg, answer, row, first);
    KeyTerm(cfg, answer, row, next);
    QuietKey(cfg.separator, first, next);
    OneRowKeystroke(m, KeyValueGenerator(cfg, answer), row, first, next);
  }

  lemma {:induction false} QuietKey(sep: char, first: string, next: string)
    requires sep !in first && sep !in next
    ensures !KeyValueTrigger(sep)(next, first)
  {
    Absent(first, sep);
    Absent(next, sep);
  }

  /** A row that did not match the first partial key is not brought back by one that it matches. */
  lemma {:induction false} EditedQueryLosesRows(m: Matcher, cfg: Config, answer: Call -> seq<Suggestion>,
      row: Suggestion, first: string, next: string)
    requires cfg.separator !in first && cfg.separator !in next && Offers(cfg, answer, row)
    requires !row.hidden && !MatchesQuery(m, row.name, first) && MatchesQuery(m, row.name, next)
    ensures var g := KeyValueGenerator(cfg, answer);
      Keystroke(m, g, Begin(m, g, first), next).rows == [] && Begin(m, g, next).rows == [row]
  {
    OneRowRun(m, cfg, answer, row, first, next);
  }

  /** So deleting a partial key does not bring back the rows that did not match it. */
  lemma {:induction false} DeletedQueryLosesRows(m: Matcher, cfg: Config, answer: Call -> seq<Suggestion>,
      row: Suggestion, first: string)
    requires cfg.separator !in first && Offers(cfg, answer, row)
    requires !row.hidden && !MatchesQuery(m, row.name, first)
    ensures var g := KeyValueGenerator(cfg, answer);
      Keystroke(m, g, Begin(m, g, first), "").rows == [] && Begin(m, g, "").rows == [row]
  {
    var next: string := "";
    EditedQueryLosesRows(m, cfg, answer, row, first, next);
  }

  /** Typing the rest of a hidden row's name does not bring it up. */
  lemma {:induction false} TypedHiddenRowIsLost(m: Matcher, cfg: Config, answer: Call -> seq<Suggestion>,
      row: Suggestion, first: string)
    requires cfg.separator !in row.name && Offers(cfg, answer, row)
    requires row.hidden && first < row.name
    ensures var g := KeyValueGenerator(cfg, answer);
      Keystroke(m, g, Begin(m, g, first), row.name).rows == [] && Begin(m, g, row.name).rows == [row]
  {
    assert forall c :: c in first ==> c in row.name;
    assert |Map(first, AsciiLower)| < |Map(row.name, AsciiLower)|;
    OneRowRun(m, cfg, answer, row, first, row.name);
  }

  /** Typing a path's last component keeps its row, which a fresh computation would drop. */
  lemma {:induction false} TypedPathRowStays(m: Matcher, cfg: Config, answer: Call -> seq<Suggestion>,
      row: Suggestion, first: string, next: string)
    requires cfg.separator !in first && cfg.separator !in next && Offers(cfg, answer, row)
    requires IsPath(row) && !row.hidden && MatchesQuery(m, row.name, first)
    requires MatchesQuery(m, Basename(row.name), next) && !MatchesQuery(m, row.name, next)
    ensures var g := KeyValueGenerator(cfg, answer);
      Keystroke(m, g, Begin(m, g, first), next).rows == [row] && Begin(m, g, next).rows == []
  {
    OneRowRun(m, cfg, answer, row, first, next);
  }

  /** As happens to the file "s/m", computed for the empty key, when "m" is typed in prefix mode. */
  lemma {:induction false} SuchAPathRow(m: Matcher)
    requires !m.fuzzy && m.lower('s') != m.lower('m')
    ensures MatchesQuery(m, "s/m", "") && MatchesQuery(m, Basename("s/m"), "m") && !MatchesQuery(m, "s/m", "m")
  {
    ThroughUnique("s/", "m", '/');
    assert "s/" + "m" == "s/m" && TrimSlashes("s/m") == "s/m";
    MatchesExact(m, "s/m", "m");
    assert Lower(m, "s/m")[0] == m.lower('s') && Lower(m, "m")[0] == m.lower('m');
  }
}

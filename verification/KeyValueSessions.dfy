/** Editing a key/value list by typing, deleting and accepting offers: keys stay distinct. */
module KeyValueSessions {
  import opened Seqs
  import opened Js
  import opened Sessions
  import opened Suggestions
  import opened SuggestionCache
  import opened KeyValues
  import opened ValueLists
  import opened KeyValueLists

  function Has(c: char): (p: string -> bool) {
    (x: string) => c in x
  }

  /** The keys of the items that have a separator, in order. */
  function PairKeys(sep: char, items: seq<string>): (r: seq<string>) {
    Map(Filter(items, Has(sep)), KeyOf(sep))
  }

  /** The key of the item under the cursor, once its separator is there. */
  function LastKey(sep: char, x: string): (r: seq<string>) {
    if sep in x then [KeyOf(sep)(x)] else []
  }

  /** The keys of a token, the one under the cursor included once its separator is there. */
  function TermKeys(sep: char, del: char, term: string): (r: seq<string>) {
    PairKeys(sep, Split(term, del))
  }

  function ListEdit(cfg: ListConfig, term: string, a: Action): (r: string) {
    match a
    case Type(c) => term + [c]
    case Backspace => DropLast(term)
    case Accept(row) => ThroughMark(cfg.separator, cfg.delimiter, term) + Inserted(row)
    case Other(_) => term
  }

  function ListOpen(cfg: ListConfig, before: seq<Call>, term: string): (k: Desk) {
    Desk(Start(term), before + [ListRequest(cfg, term, [])], ListOffers(cfg, before, term))
  }

  /** The token becomes `next`, which recomputes the offers on the trigger. */
  function ListMove(cfg: ListConfig, k: Desk, next: string): (r: Desk) {
    var trigger := MarkTrigger(cfg.separator, cfg.delimiter);
    var s := Advance(trigger, k.session, next);
    if trigger(next, k.session.term) then
      Desk(s, k.calls + [ListRequest(cfg, next, [])], ListOffers(cfg, k.calls, next))
    else k.(session := s)
  }

  function ListAct(cfg: ListConfig, k: Desk, a: Action): (r: Desk) {
    if a.Other? then k.(calls := k.calls + [a.call]) else ListMove(cfg, k, ListEdit(cfg, k.session.term, a))
  }

  function ListPlay(cfg: ListConfig, k: Desk, actions: seq<Action>): (r: Desk)
    decreases |actions|
  {
    if actions == [] then k else ListPlay(cfg, ListAct(cfg, k, actions[0]), actions[1..])
  }

  predicate MarkFree(cfg: ListConfig, x: string) {
    cfg.separator !in x && cfg.delimiter !in x
  }

  /** Plain keys and values without marks, repeated keys off. */
  ghost predicate StrictList(cfg: ListConfig) {
    && cfg.separator != cfg.delimiter && !cfg.allowRepeatedKeys
    && cfg.keys.content.Strings? && (forall x :: x in cfg.keys.content.names ==> MarkFree(cfg, x))
    && cfg.values.content.Strings? && (forall x :: x in cfg.values.content.names ==> MarkFree(cfg, x))
  }

  /** A typed separator ends a key that is new; an accepted row is one of those on screen. */
  ghost predicate ListLegal(cfg: ListConfig, k: Desk, a: Action) {
    match a
    case Type(c) =>
      c == cfg.separator && AtKey(cfg.separator, cfg.delimiter, k.session.term) ==>
        After(k.session.term, cfg.delimiter) !in TermKeys(cfg.separator, cfg.delimiter, k.session.term)
    case Backspace => true
    case Accept(row) => row in k.shown
    case Other(call) => |call.suffix| <= 1
  }

  ghost predicate ListLegalRun(cfg: ListConfig, k: Desk, actions: seq<Action>)
    decreases |actions|
  {
    actions == [] || (ListLegal(cfg, k, actions[0]) && ListLegalRun(cfg, ListAct(cfg, k, actions[0]), actions[1..]))
  }

  // ----- keys of a token from its parts

  lemma {:induction false} PairKeysAppend(sep: char, a: seq<string>, b: seq<string>)
    ensures PairKeys(sep, a + b) == PairKeys(sep, a) + PairKeys(sep, b)
  {
    FilterAppend(a, b, Has(sep));
    MapAppend(Filter(a, Has(sep)), Filter(b, Has(sep)), KeyOf(sep));
  }

  lemma {:induction false} PairKeysSnoc(sep: char, a: seq<string>, x: string)
    ensures PairKeys(sep, a + [x]) == PairKeys(sep, a) + LastKey(sep, x)
  {
    PairKeysAppend(sep, a, [x]);
    FilterOne(x, Has(sep));
  }

  /** Replacing the text after the last delimiter replaces the last item. */
  lemma {:induction false} ReplaceLast(sep: char, del: char, term: string, x: string)
    requires del !in x
    ensures TermKeys(sep, del, Through(term, del) + x)
         == PairKeys(sep, Committed(del, term)) + LastKey(sep, x)
  {
    var next := Through(term, del) + x;
    ThroughUnique(Through(term, del), x, del);
    SplitInit(next, term, del);
    TokenStructure(del, next);
    PairKeysSnoc(sep, Committed(del, term), x);
  }

  lemma {:induction false} KeysOfTerm(sep: char, del: char, term: string)
    ensures var x := After(term, del);
      TermKeys(sep, del, term) == PairKeys(sep, Committed(del, term)) + LastKey(sep, x)
  {
    TokenStructure(del, term);
    PairKeysSnoc(sep, Committed(del, term), After(term, del));
  }

  /** A trailing delimiter adds an empty item, which has no key. */
  lemma {:induction false} DelimiterAddsNoKey(sep: char, del: char, term: string)
    ensures TermKeys(sep, del, term + [del]) == TermKeys(sep, del, term)
  {
    assert term + [del] == term + [del] + "";
    SplitAppend(term, "", del);
    SplitWhole("", del);
    PairKeysSnoc(sep, Split(term, del), "");
  }

  /** The key of an item is settled once its separator is there. */
  lemma {:induction false} KeyIsSettled(sep: char, h: string, v: string)
    requires sep in h
    ensures sep in h + v && KeyOf(sep)(h + v) == KeyOf(sep)(h)
  {
    Absent(h, sep);
    var i := IndexOf(h, sep);
    IndexOfUnique(h + v, sep, i);
    assert (h + v)[i] in h + v;
    assert (h + v)[..i] == h[..i];
  }

  lemma {:induction false} NewKey(sep: char, x: string)
    requires sep !in x
    ensures sep in x + [sep] && KeyOf(sep)(x + [sep]) == x
  {
  }

  // ----- every action keeps the keys distinct

  ghost predicate KeysDistinct(cfg: ListConfig, term: string) {
    Distinct(TermKeys(cfg.separator, cfg.delimiter, term))
  }

  lemma {:induction false} LastKeyTyped(sep: char, x: string, c: char)
    ensures LastKey(sep, x + [c]) == if c == sep && sep !in x then [x] else LastKey(sep, x)
  {
    if sep in x {
      KeyIsSettled(sep, x, [c]);
    } else if c == sep {
      NewKey(sep, x);
    }
  }

  lemma {:induction false} TypeKeepsKeys(cfg: ListConfig, k: Desk, c: char)
    requires cfg.separator != cfg.delimiter && KeysDistinct(cfg, k.session.term) && ListLegal(cfg, k, Type(c))
    ensures KeysDistinct(cfg, k.session.term + [c])
  {
    var sep, del, term := cfg.separator, cfg.delimiter, k.session.term;
    if c == del {
      DelimiterAddsNoKey(sep, del, term);
    } else {
      var x := After(term, del);
      TypedKeys(sep, del, term, c);
      if c == sep && sep !in x {
        NoSeparatorIsKey(sep, del, term);
        DistinctSnoc(TermKeys(sep, del, term), x);
      }
    }
  }

  lemma {:induction false} TypedKeys(sep: char, del: char, term: string, c: char)
    requires c != del
    ensures var x := After(term, del);
      TermKeys(sep, del, term + [c]) == TermKeys(sep, del, term) + if c == sep && sep !in x then [x] else []
  {
    KeysOfTerm(sep, del, term);
    TypedLastKey(sep, del, term, c);
    LastKeyTyped(sep, After(term, del), c);
  }

  lemma {:induction false} TypedLastKey(sep: char, del: char, term: string, c: char)
    requires c != del
    ensures TermKeys(sep, del, term + [c])
         == PairKeys(sep, Committed(del, term)) + LastKey(sep, After(term, del) + [c])
  {
    var x := After(term, del);
    assert del !in x + [c] by {
      ThroughAfter(term, del);
    }
    TypedText(del, term, c);
    ReplaceLast(sep, del, term, x + [c]);
  }

  lemma {:induction false} TypedText(del: char, term: string, c: char)
    ensures term + [c] == Through(term, del) + (After(term, del) + [c])
  {
  }

  /** The token is at key position exactly when its last item has no separator. */
  lemma {:induction false} NoSeparatorIsKey(sep: char, del: char, term: string)
    requires sep != del
    ensures AtKey(sep, del, term) <==> sep !in After(term, del)
  {
    KeyIffDelimiterLast(sep, del, term);
    SeparatorAfter(sep, del, term);
  }

  lemma {:induction false} KeyIffDelimiterLast(sep: char, del: char, term: string)
    requires sep != del
    ensures AtKey(sep, del, term) <==> LastIndexOf(term, sep) <= LastIndexOf(term, del)
  {
    var y := LastMark(sep, del, term);
    if y >= 0 {
      assert term[y..y + 1] == [term[y]];
    }
  }

  lemma {:induction false} SeparatorAfter(sep: char, del: char, term: string)
    ensures sep in After(term, del) <==> LastIndexOf(term, sep) > LastIndexOf(term, del)
  {
    var j := LastIndexOf(term, del);
    if LastIndexOf(term, sep) > j {
      InRest(term, sep, j);
    } else {
      NotInRest(term, sep, j);
    }
  }

  lemma {:induction false} InRest(term: string, c: char, j: int)
    requires -1 <= j < LastIndexOf(term, c)
    ensures c in term[j + 1..]
  {
    var i := LastIndexOf(term, c);
    assert term[j + 1..][i - j - 1] == c;
  }

  lemma {:induction false} NotInRest(term: string, c: char, j: int)
    requires LastIndexOf(term, c) <= j < |term|
    ensures c !in term[j + 1..]
  {
    var rest := term[j + 1..];
    forall k | 0 <= k < |rest|
      ensures rest[k] != c
    {
      assert rest[k] == term[j + 1 + k];
    }
  }

  lemma {:induction false} BackspaceKeepsKeys(cfg: ListConfig, term: string)
    requires KeysDistinct(cfg, term)
    ensures KeysDistinct(cfg, DropLast(term))
  {
    if term != "" {
      LastCharacter(term);
      UntypeKeepsKeys(cfg.separator, cfg.delimiter, DropLast(term), term[|term| - 1]);
    }
  }

  lemma {:induction false} LastCharacter(term: string)
    requires term != ""
    ensures term == DropLast(term) + [term[|term| - 1]]
  {
  }

  lemma {:induction false} UntypeKeepsKeys(sep: char, del: char, u: string, c: char)
    requires Distinct(TermKeys(sep, del, u + [c]))
    ensures Distinct(TermKeys(sep, del, u))
  {
    if c == del {
      DelimiterAddsNoKey(sep, del, u);
    } else {
      var x := After(u, del);
      TypedKeys(sep, del, u, c);
      DistinctInit(TermKeys(sep, del, u), if c == sep && sep !in x then [x] else []);
    }
  }

  /** The configured names for a position, and the names not offered there. */
  function NamesFor(cfg: ListConfig, term: string): (r: seq<string>)
    requires cfg.keys.content.Strings? && cfg.values.content.Strings?
  {
    if AtKey(cfg.separator, cfg.delimiter, term) then cfg.keys.content.names else cfg.values.content.names
  }

  function UsedFor(cfg: ListConfig, term: string): (r: seq<string>) {
    if AtKey(cfg.separator, cfg.delimiter, term) then UsedKeys(cfg.separator, cfg.delimiter, term)
    else if cfg.allowRepeatedValues then [] else UsedValues(cfg.separator, cfg.delimiter, term)
  }

  lemma {:induction false} ListOffersFit(cfg: ListConfig, before: seq<Call>, term: string)
    requires StrictList(cfg) && OneMark(before)
    ensures AllFit(NamesFor(cfg, term), UsedFor(cfg, term), ListOffers(cfg, before, term))
  {
    var c, names, used := ListRequest(cfg, term, []), NamesFor(cfg, term), UsedFor(cfg, term);
    var suffix := SuffixInForce(before, c.source, c.suffix);
    AnswerInForce(before, c);
    PlainOffersFit(names, used, suffix);
    NothingExcluded(AddSuffix(suffix, Map(names, PlainRow)));
  }

  lemma {:induction false} NothingExcluded(rows: seq<Row>)
    ensures Exclude([], rows) == rows
  {
    if rows == [] {
    } else {
      NothingExcluded(rows[1..]);
    }
  }

  /** At key position, accepted text ends a new key exactly when it brings the separator. */
  lemma {:induction false} KeyReplaced(sep: char, del: char, term: string, v: string, text: string)
    requires sep != del && AtKey(sep, del, term) && sep !in v && del !in v && Completes(v, text)
    ensures TermKeys(sep, del, ThroughMark(sep, del, term) + text)
         == TermKeys(sep, del, term) + if text == v + [sep] then [v] else []
  {
    KeyPositionText(sep, del, term);
    KeysAtKeyPosition(sep, del, term);
    ItemReplaced(sep, del, term, v, text);
  }

  lemma {:induction false} KeyPositionText(sep: char, del: char, term: string)
    requires AtKey(sep, del, term)
    ensures ThroughMark(sep, del, term) == Through(term, del)
  {
    KeyPositionMark(sep, del, term);
  }

  lemma {:induction false} ItemReplaced(sep: char, del: char, term: string, v: string, text: string)
    requires sep != del && sep !in v && del !in v && Completes(v, text)
    ensures TermKeys(sep, del, Through(term, del) + text)
         == PairKeys(sep, Committed(del, term)) + if text == v + [sep] then [v] else []
  {
    if text == v + [sep] {
      AddedKey(sep, del, term, v);
    } else if text == v + [del] {
      UnfinishedItem(sep, del, term, v);
    } else {
      OneMore(v, text);
      NoNewKey(sep, del, term, text);
    }
  }

  lemma {:induction false} AddedKey(sep: char, del: char, term: string, v: string)
    requires sep != del && sep !in v && del !in v
    ensures TermKeys(sep, del, Through(term, del) + (v + [sep])) == PairKeys(sep, Committed(del, term)) + [v]
  {
    NewKey(sep, v);
    ReplaceLast(sep, del, term, v + [sep]);
  }

  lemma {:induction false} UnfinishedItem(sep: char, del: char, term: string, v: string)
    requires sep !in v && del !in v
    ensures TermKeys(sep, del, Through(term, del) + (v + [del])) == PairKeys(sep, Committed(del, term))
  {
    NoNewKey(sep, del, term, v);
    Associative(Through(term, del), v, [del]);
    DelimiterAddsNoKey(sep, del, Through(term, del) + v);
  }

  lemma {:induction false} NoNewKey(sep: char, del: char, term: string, text: string)
    requires sep !in text && del !in text
    ensures TermKeys(sep, del, Through(term, del) + text) == PairKeys(sep, Committed(del, term))
  {
    ReplaceLast(sep, del, term, text);
  }

  lemma {:induction false} FittingName(names: seq<string>, used: seq<string>, rows: seq<Row>, row: Row)
    returns (v: string)
    requires AllFit(names, used, rows) && row in rows
    ensures v in names && v !in used && Completes(v, Inserted(row))
  {
    assert Fits(names, used, row);
    v :| v in names && v !in used && Completes(v, Inserted(row));
  }

  /** A row on screen inserts a name for the current position, which is free there. */
  lemma {:induction false} RowOnScreen(cfg: ListConfig, k: Desk, row: Row) returns (v: string)
    requires StrictList(cfg) && OnScreen(cfg, k) && row in k.shown
    ensures MarkFree(cfg, v) && Completes(v, Inserted(row))
    ensures AtKey(cfg.separator, cfg.delimiter, k.session.computedFor) ==>
      v !in UsedKeys(cfg.separator, cfg.delimiter, k.session.computedFor)
  {
    v := FittingName(NamesFor(cfg, k.session.computedFor), UsedFor(cfg, k.session.computedFor), k.shown, row);
  }

  lemma {:induction false} NewKeyIsDistinct(sep: char, del: char, computedFor: string, term: string,
      v: string, text: string)
    requires sep != del && AtKey(sep, del, term) && Committed(del, computedFor) == Committed(del, term)
    requires sep !in v && del !in v && v !in UsedKeys(sep, del, computedFor) && Completes(v, text)
    requires Distinct(TermKeys(sep, del, term))
    ensures Distinct(TermKeys(sep, del, ThroughMark(sep, del, term) + text))
  {
    CommittedKeysAreUsed(sep, del, computedFor, v);
    KeysAtKeyPosition(sep, del, term);
    KeyReplaced(sep, del, term, v, text);
    DistinctSnoc(TermKeys(sep, del, term), v);
  }

  lemma {:induction false} AcceptKeepsKeys(cfg: ListConfig, k: Desk, row: Row)
    requires StrictList(cfg) && OnScreen(cfg, k) && row in k.shown && KeysDistinct(cfg, k.session.term)
    ensures KeysDistinct(cfg, ListEdit(cfg, k.session.term, Accept(row)))
  {
    var v := RowOnScreen(cfg, k, row);
    AcceptedText(cfg.separator, cfg.delimiter, k.session.computedFor, k.session.term, v, Inserted(row));
  }

  lemma {:induction false} AcceptedText(sep: char, del: char, computedFor: string, term: string,
      v: string, text: string)
    requires sep != del && SameMarks(sep, del, computedFor, term)
    requires sep !in v && del !in v && Completes(v, text)
    requires AtKey(sep, del, computedFor) ==> v !in UsedKeys(sep, del, computedFor)
    requires Distinct(TermKeys(sep, del, term))
    ensures Distinct(TermKeys(sep, del, ThroughMark(sep, del, term) + text))
  {
    SameMarksSameItems(sep, del, computedFor, term);
    if AtKey(sep, del, term) {
      NewKeyIsDistinct(sep, del, computedFor, term, v, text);
    } else {
      ValueLeavesKeys(sep, del, term, v, text);
    }
  }

  lemma {:induction false} KeysAtKeyPosition(sep: char, del: char, term: string)
    requires sep != del && AtKey(sep, del, term)
    ensures TermKeys(sep, del, term) == PairKeys(sep, Committed(del, term))
  {
    NoSeparatorIsKey(sep, del, term);
    KeysOfTerm(sep, del, term);
  }

  lemma {:induction false} CommittedKeysAreUsed(sep: char, del: char, term: string, v: string)
    requires v !in UsedKeys(sep, del, term)
    ensures v !in PairKeys(sep, Committed(del, term))
  {
    var items := Split(term, del);
    var kept := Filter(Committed(del, term), Has(sep));
    forall i | 0 <= i < |kept|
      ensures Map(kept, KeyOf(sep))[i] != v
    {
      assert kept[i] in kept && kept[i] in items;
      MapMember(items, KeyOf(sep), kept[i]);
    }
  }

  /** At value position, accepted text leaves every key alone, whatever single character follows it. */
  lemma {:induction false} ValueLeavesKeys(sep: char, del: char, term: string, v: string, text: string)
    requires sep != del && !AtKey(sep, del, term) && del !in v && Completes(v, text)
    ensures TermKeys(sep, del, ThroughMark(sep, del, term) + text) == TermKeys(sep, del, term)
  {
    var p := ThroughMark(sep, del, term);
    if text == v + [del] {
      ReplaceValue(sep, del, term, v);
      Associative(p, v, [del]);
      DelimiterAddsNoKey(sep, del, p + v);
    } else {
      OneMore(v, text);
      ReplaceValue(sep, del, term, text);
    }
  }

  /** At value position, the text through the last mark ends in the item's start, its separator included. */
  lemma {:induction false} ValuePosition(sep: char, del: char, term: string) returns (h: string)
    requires sep != del && !AtKey(sep, del, term)
    ensures ThroughMark(sep, del, term) == Through(term, del) + h && sep in h && del !in h
  {
    var p := ThroughMark(sep, del, term);
    h := After(p, del);
    ThroughWithin(sep, del, term);
    ThroughAfter(p, del);
    EndsInSeparator(sep, del, term);
    LastStays(Through(p, del), h, p);
  }

  lemma {:induction false} EndsInSeparator(sep: char, del: char, term: string)
    requires sep != del && !AtKey(sep, del, term)
    ensures var p := ThroughMark(sep, del, term); EndsWith(p, sep) && Through(p, del) != p
  {
    var y, p := LastMark(sep, del, term), ThroughMark(sep, del, term);
    assert term[y..y + 1] == [term[y]] && p[|p| - 1] == term[y] == sep;
    assert LastIndexOf(p, del) != |p| - 1;
  }

  lemma {:induction false} LastStays(f: string, h: string, p: string)
    requires p == f + h && p != "" && f != p
    ensures h != "" && p[|p| - 1] in h
  {
    assert h == "" ==> f + h == f;
    assert p[|p| - 1] == h[|h| - 1];
  }

  lemma {:induction false} MarkSplit(sep: char, del: char, term: string)
    ensures term == ThroughMark(sep, del, term) + MarkQuery(sep, del, term) && del !in MarkQuery(sep, del, term)
  {
  }

  lemma {:induction false} ItemWithKey(sep: char, del: char, term: string, h: string, v: string)
    requires sep in h && del !in h && del !in v
    ensures TermKeys(sep, del, Through(term, del) + h + v)
         == PairKeys(sep, Committed(del, term)) + [KeyOf(sep)(h)]
  {
    Associative(Through(term, del), h, v);
    ReplaceLast(sep, del, term, h + v);
    KeyIsSettled(sep, h, v);
  }

  /** At value position, replacing the query term leaves every key alone. */
  lemma {:induction false} ReplaceValue(sep: char, del: char, term: string, v: string)
    requires sep != del && !AtKey(sep, del, term) && del !in v
    ensures TermKeys(sep, del, ThroughMark(sep, del, term) + v) == TermKeys(sep, del, term)
  {
    var h := ValuePosition(sep, del, term);
    MarkSplit(sep, del, term);
    ItemWithKey(sep, del, term, h, MarkQuery(sep, del, term));
    ItemWithKey(sep, del, term, h, v);
  }

  // ----- whole runs

  /** The rows on screen are those of the current position, whoever filled the cache. */
  ghost predicate OnScreen(cfg: ListConfig, k: Desk)
    requires StrictList(cfg)
  {
    && SameMarks(cfg.separator, cfg.delimiter, k.session.computedFor, k.session.term)
    && OneMark(k.calls)
    && AllFit(NamesFor(cfg, k.session.computedFor), UsedFor(cfg, k.session.computedFor), k.shown)
  }

  /** Every action keeps the text through the last mark, or moves that mark. */
  lemma {:induction false} ListActionIsSafe(cfg: ListConfig, term: string, a: Action)
    ensures SafeForMarks(cfg.separator, cfg.delimiter)(term, ListEdit(cfg, term, a))
  {
    var sep, del := cfg.separator, cfg.delimiter;
    var p, next := ThroughMark(sep, del, term), ListEdit(cfg, term, a);
    match a
    case Type(c) => assert next[..|p|] == p;
    case Backspace =>
      if !MarkTrigger(sep, del)(next, term) {
        MarkTriggerExact(sep, del, term, next);
      }
    case Accept(row) => assert next[..|p|] == p;
    case Other(_) =>
  }

  lemma {:induction false} ScreenMoves(cfg: ListConfig, k: Desk, next: string)
    requires StrictList(cfg) && OnScreen(cfg, k)
    requires SafeForMarks(cfg.separator, cfg.delimiter)(k.session.term, next)
    ensures OnScreen(cfg, ListMove(cfg, k, next))
  {
    if MarkTrigger(cfg.separator, cfg.delimiter)(next, k.session.term) {
      ScreenIsNew(cfg, k.calls, next);
    } else {
      MarksKeep(cfg, k.session, next);
    }
  }

  lemma {:induction false} ScreenIsNew(cfg: ListConfig, calls: seq<Call>, next: string)
    requires StrictList(cfg) && OneMark(calls)
    ensures OnScreen(cfg, Desk(Start(next), calls + [ListRequest(cfg, next, [])], ListOffers(cfg, calls, next)))
  {
    ListOffersFit(cfg, calls, next);
  }

  lemma {:induction false} ScreenKeeps(cfg: ListConfig, k: Desk, a: Action)
    requires StrictList(cfg) && OnScreen(cfg, k) && ListLegal(cfg, k, a)
    ensures OnScreen(cfg, ListAct(cfg, k, a))
  {
    if !a.Other? {
      ListActionIsSafe(cfg, k.session.term, a);
      ScreenMoves(cfg, k, ListEdit(cfg, k.session.term, a));
    }
  }

  lemma {:induction false} MarksKeep(cfg: ListConfig, s: Session, next: string)
    requires SameMarks(cfg.separator, cfg.delimiter, s.computedFor, s.term)
    requires SafeForMarks(cfg.separator, cfg.delimiter)(s.term, next)
    ensures var r := Advance(MarkTrigger(cfg.separator, cfg.delimiter), s, next);
      SameMarks(cfg.separator, cfg.delimiter, r.computedFor, r.term)
  {
    AdvanceMarksExact(cfg.separator, cfg.delimiter, s, next);
  }

  lemma {:induction false} EditKeepsKeys(cfg: ListConfig, k: Desk, a: Action)
    requires StrictList(cfg) && OnScreen(cfg, k) && KeysDistinct(cfg, k.session.term) && ListLegal(cfg, k, a)
    ensures KeysDistinct(cfg, ListEdit(cfg, k.session.term, a))
  {
    match a
    case Type(c) => TypeKeepsKeys(cfg, k, c);
    case Backspace => BackspaceKeepsKeys(cfg, k.session.term);
    case Accept(row) => AcceptKeepsKeys(cfg, k, row);
    case Other(_) =>
  }

  lemma {:induction false} MovedTerm(cfg: ListConfig, k: Desk, a: Action)
    ensures ListAct(cfg, k, a).session.term == ListEdit(cfg, k.session.term, a)
  {
  }

  ghost predicate GoodList(cfg: ListConfig, k: Desk) {
    StrictList(cfg) && OnScreen(cfg, k) && KeysDistinct(cfg, k.session.term)
  }

  lemma {:induction false} ListActKeeps(cfg: ListConfig, k: Desk, a: Action)
    requires GoodList(cfg, k) && ListLegal(cfg, k, a)
    ensures GoodList(cfg, ListAct(cfg, k, a))
  {
    ScreenKeeps(cfg, k, a);
    EditKeepsKeys(cfg, k, a);
    MovedTerm(cfg, k, a);
  }

  lemma {:induction false} ListPlayKeeps(cfg: ListConfig, k: Desk, actions: seq<Action>)
    requires GoodList(cfg, k) && ListLegalRun(cfg, k, actions)
    ensures GoodList(cfg, ListPlay(cfg, k, actions))
    decreases |actions|
  {
    if actions == [] {
    } else {
      ListActKeeps(cfg, k, actions[0]);
      ListPlayKeeps(cfg, ListAct(cfg, k, actions[0]), actions[1..]);
    }
  }

  /**
   * No key twice over every run from the empty token: keys enter by accepting an offer or by typing
   * a new one, values in any way, and any amount may be deleted. The reused offers never go stale,
   * and other generators' requests, before and during the run, do not matter.
   */
  lemma {:induction false} NoDuplicateKeys(cfg: ListConfig, before: seq<Call>, actions: seq<Action>)
    requires StrictList(cfg) && OneMark(before)
    ensures var k := ListOpen(cfg, before, "");
      ListLegalRun(cfg, k, actions) ==>
        Distinct(TermKeys(cfg.separator, cfg.delimiter, ListPlay(cfg, k, actions).session.term))
  {
    var k := ListOpen(cfg, before, "");
    if ListLegalRun(cfg, k, actions) {
      OpensGood(cfg, before);
      ListPlayKeeps(cfg, k, actions);
    }
  }

  lemma {:induction false} OpensGood(cfg: ListConfig, before: seq<Call>)
    requires StrictList(cfg) && OneMark(before)
    ensures GoodList(cfg, ListOpen(cfg, before, ""))
  {
    SplitWhole("", cfg.delimiter);
    PairKeysSnoc(cfg.separator, [], "");
    ScreenIsNew(cfg, before, "");
  }

  // ----- every list of pairs can be built from offers

  function KeyRow(cfg: ListConfig, key: string): (r: Row) {
    Row(Single(key), Some(key + [cfg.separator]), map[])
  }

  function PairRow(cfg: ListConfig, v: string): (r: Row) {
    Row(Single(v), Some(v + [cfg.delimiter]), map[])
  }

  /** Accept the key of each pair and then its value. */
  function AcceptPairs(cfg: ListConfig, ps: seq<Pair>): (r: seq<Action>) {
    if ps == [] then []
    else [Accept(KeyRow(cfg, ps[0].key)), Accept(PairRow(cfg, ps[0].value))] + AcceptPairs(cfg, ps[1..])
  }

  /** Different lists of plain keys and values, marks inserted after both, only keys not to be repeated. */
  ghost predicate Building(cfg: ListConfig) {
    && StrictList(cfg) && cfg.insertSeparator && cfg.insertDelimiter && cfg.allowRepeatedValues
    && cfg.keys != cfg.values
  }

  ghost predicate Configured(cfg: ListConfig, p: Pair)
    requires StrictList(cfg)
  {
    p.key in cfg.keys.content.names && p.key != "" && p.value in cfg.values.content.names
  }

  /** Requests for this generator's lists so far are its own. */
  ghost predicate OwnListCalls(cfg: ListConfig, calls: seq<Call>) {
    forall k :: 0 <= k < |calls| ==>
      && (calls[k].source == cfg.keys ==> calls[k].suffix == [cfg.separator])
      && (calls[k].source == cfg.values ==> calls[k].suffix == [cfg.delimiter])
  }

  lemma {:induction false} OwnListSuffixes(cfg: ListConfig, calls: seq<Call>)
    requires OwnListCalls(cfg, calls)
    ensures SuffixInForce(calls, cfg.keys, [cfg.separator]) == [cfg.separator]
    ensures SuffixInForce(calls, cfg.values, [cfg.delimiter]) == [cfg.delimiter]
  {
  }

  lemma {:induction false} FreeKeyIsOffered(cfg: ListConfig, calls: seq<Call>, ps: seq<Pair>, key: string)
    requires Building(cfg) && OwnListCalls(cfg, calls) && AllClean(cfg.separator, cfg.delimiter, ps)
    requires key in cfg.keys.content.names && key != "" && key !in KeysOf(ps)
    ensures KeyRow(cfg, key) in ListOffers(cfg, calls, Print(cfg.separator, cfg.delimiter, ps))
  {
    var names, front := cfg.keys.content.names, Print(cfg.separator, cfg.delimiter, ps);
    var free := Filter(names, NotIn(KeysOf(ps) + [DropLast("")]));
    assert front + "" == front;
    OfferedKeysExact(cfg, names, calls, ps, "");
    OwnListSuffixes(cfg, calls);
    assert key in free;
    var i :| 0 <= i < |free| && free[i] == key;
    PlainRowsExact([cfg.separator], free, i);
  }

  lemma {:induction false} ValueIsOffered(cfg: ListConfig, calls: seq<Call>, term: string, v: string)
    requires Building(cfg) && OwnListCalls(cfg, calls) && v in cfg.values.content.names
    requires !AtKey(cfg.separator, cfg.delimiter, term)
    ensures PairRow(cfg, v) in ListOffers(cfg, calls, term)
  {
    var names := cfg.values.content.names;
    AnswerInForce(calls, ListRequest(cfg, term, []));
    OwnListSuffixes(cfg, calls);
    var i :| 0 <= i < |names| && names[i] == v;
    PlainRowsExact([cfg.delimiter], names, i);
  }

  /** The desk as a computation for `term` after `calls` leaves it. */
  ghost predicate JustComputed(cfg: ListConfig, k: Desk, calls: seq<Call>, term: string) {
    && k.session.term == term && k.shown == ListOffers(cfg, calls, term)
    && k.calls == calls + [ListRequest(cfg, term, [])]
  }

  lemma {:induction false} RequestIsOwn(cfg: ListConfig, calls: seq<Call>, term: string)
    requires Building(cfg) && OwnListCalls(cfg, calls)
    ensures OwnListCalls(cfg, calls + [ListRequest(cfg, term, [])])
  {
  }

  /** Accepting a text that ends in a mark recomputes the offers. */
  lemma {:induction false} AcceptRecomputes(cfg: ListConfig, k: Desk, row: Row, v: string, mark: char)
    requires Inserted(row) == v + [mark] && mark in {cfg.separator, cfg.delimiter}
    ensures JustComputed(cfg, ListAct(cfg, k, Accept(row)), k.calls, ListEdit(cfg, k.session.term, Accept(row)))
  {
    var sep, del, term := cfg.separator, cfg.delimiter, k.session.term;
    var p := ThroughMark(sep, del, term);
    var next := p + (v + [mark]);
    MarkAfter(sep, del, next, "");
    assert next + "" == next && |p| == LastMark(sep, del, term) + 1;
  }

  lemma {:induction false} KeyStep(cfg: ListConfig, k: Desk, calls: seq<Call>, ps: seq<Pair>, key: string)
    requires Building(cfg) && OwnListCalls(cfg, calls) && AllClean(cfg.separator, cfg.delimiter, ps)
    requires JustComputed(cfg, k, calls, Print(cfg.separator, cfg.delimiter, ps))
    requires key in cfg.keys.content.names && key != "" && key !in KeysOf(ps)
    ensures ListLegal(cfg, k, Accept(KeyRow(cfg, key)))
    ensures JustComputed(cfg, ListAct(cfg, k, Accept(KeyRow(cfg, key))), k.calls,
                         Print(cfg.separator, cfg.delimiter, ps) + (key + [cfg.separator] + ""))
  {
    FreeKeyIsOffered(cfg, calls, ps, key);
    AcceptRecomputes(cfg, k, KeyRow(cfg, key), key, cfg.separator);
    KeyEdit(cfg, ps, key);
  }

  lemma {:induction false} KeyEdit(cfg: ListConfig, ps: seq<Pair>, key: string)
    requires cfg.separator != cfg.delimiter
    ensures ListEdit(cfg, Print(cfg.separator, cfg.delimiter, ps), Accept(KeyRow(cfg, key)))
         == Print(cfg.separator, cfg.delimiter, ps) + (key + [cfg.separator] + "")
  {
    var sep, del := cfg.separator, cfg.delimiter;
    AfterDelimiter(sep, del, Print(sep, del, ps), "");
    assert Print(sep, del, ps) + "" == Print(sep, del, ps) && key + [sep] + "" == key + [sep];
  }

  lemma {:induction false} ValueStep(cfg: ListConfig, k: Desk, calls: seq<Call>, ps: seq<Pair>, p: Pair)
    requires Building(cfg) && OwnListCalls(cfg, calls) && AllClean(cfg.separator, cfg.delimiter, ps)
    requires Configured(cfg, p)
    requires JustComputed(cfg, k, calls, Print(cfg.separator, cfg.delimiter, ps) + (p.key + [cfg.separator] + ""))
    ensures ListLegal(cfg, k, Accept(PairRow(cfg, p.value)))
    ensures JustComputed(cfg, ListAct(cfg, k, Accept(PairRow(cfg, p.value))), k.calls,
                         Print(cfg.separator, cfg.delimiter, ps + [p]))
  {
    var sep, del, row := cfg.separator, cfg.delimiter, PairRow(cfg, p.value);
    assert MarkFree(cfg, p.key) && MarkFree(cfg, p.value);
    SnocIsClean(sep, del, ps, Pair(p.key, ""));
    AfterSeparator(sep, del, Print(sep, del, ps), p.key, "");
    ValueIsOffered(cfg, calls, k.session.term, p.value);
    AcceptRecomputes(cfg, k, row, p.value, del);
    AcceptedValueAwaitsKey(sep, del, ps, p.key, "", row, p.value);
  }

  /** The pairs `done` are in place and the offers for the next key are on screen. */
  ghost predicate Built(cfg: ListConfig, k: Desk, calls: seq<Call>, done: seq<Pair>) {
    && Building(cfg) && OwnListCalls(cfg, calls) && AllClean(cfg.separator, cfg.delimiter, done)
    && JustComputed(cfg, k, calls, Print(cfg.separator, cfg.delimiter, done))
  }

  /** The desk after accepting the key of `p` and then its value. */
  function AfterPair(cfg: ListConfig, k: Desk, p: Pair): (r: Desk) {
    ListAct(cfg, ListAct(cfg, k, Accept(KeyRow(cfg, p.key))), Accept(PairRow(cfg, p.value)))
  }

  ghost predicate PairIsLegal(cfg: ListConfig, k: Desk, p: Pair) {
    && ListLegal(cfg, k, Accept(KeyRow(cfg, p.key)))
    && ListLegal(cfg, ListAct(cfg, k, Accept(KeyRow(cfg, p.key))), Accept(PairRow(cfg, p.value)))
  }

  lemma {:induction false} PairStep(cfg: ListConfig, k: Desk, calls: seq<Call>, ps: seq<Pair>, p: Pair)
    returns (calls': seq<Call>)
    requires Built(cfg, k, calls, ps) && Configured(cfg, p) && p.key !in KeysOf(ps)
    ensures PairIsLegal(cfg, k, p) && Built(cfg, AfterPair(cfg, k, p), calls', ps + [p])
  {
    var k1 := ListAct(cfg, k, Accept(KeyRow(cfg, p.key)));
    RequestIsOwn(cfg, calls, k.session.term);
    KeyStep(cfg, k, calls, ps, p.key);
    ValueStep(cfg, k1, k.calls, ps, p);
    RequestIsOwn(cfg, k.calls, k1.session.term);
    assert MarkFree(cfg, p.key) && MarkFree(cfg, p.value);
    SnocIsClean(cfg.separator, cfg.delimiter, ps, p);
    calls' := k1.calls;
  }

  /** The actions are legal and lead to the printed pairs. */
  ghost predicate LeadsTo(cfg: ListConfig, k: Desk, actions: seq<Action>, ps: seq<Pair>) {
    && ListLegalRun(cfg, k, actions)
    && ListPlay(cfg, k, actions).session.term == Print(cfg.separator, cfg.delimiter, ps)
  }

  lemma {:induction false} BuildsPairs(cfg: ListConfig, k: Desk, calls: seq<Call>, done: seq<Pair>, ps: seq<Pair>)
    returns (calls': seq<Call>)
    requires Built(cfg, k, calls, done) && AllConfigured(cfg, ps) && Distinct(KeysOf(done + ps))
    ensures AllLegal(cfg, k, ps) && Built(cfg, AfterPairs(cfg, k, ps), calls', done + ps)
    decreases |ps|
  {
    if ps == [] {
      assert done + ps == done;
      calls' := calls;
    } else {
      var p, rest := ps[0], ps[1..];
      FirstConfigured(cfg, ps);
      NewPairKey(done, ps);
      MovePair(done, ps);
      calls' := PairStep(cfg, k, calls, done, p);
      calls' := BuildsPairs(cfg, AfterPair(cfg, k, p), calls', done + [p], rest);
    }
  }

  function AfterPairs(cfg: ListConfig, k: Desk, ps: seq<Pair>): (r: Desk)
    decreases |ps|
  {
    if ps == [] then k else AfterPairs(cfg, AfterPair(cfg, k, ps[0]), ps[1..])
  }

  ghost predicate AllLegal(cfg: ListConfig, k: Desk, ps: seq<Pair>)
    decreases |ps|
  {
    ps == [] || (PairIsLegal(cfg, k, ps[0]) && AllLegal(cfg, AfterPair(cfg, k, ps[0]), ps[1..]))
  }

  lemma {:induction false} PairsAreActions(cfg: ListConfig, k: Desk, ps: seq<Pair>)
    ensures ListPlay(cfg, k, AcceptPairs(cfg, ps)) == AfterPairs(cfg, k, ps)
    ensures AllLegal(cfg, k, ps) ==> ListLegalRun(cfg, k, AcceptPairs(cfg, ps))
    decreases |ps|
  {
    if ps == [] {
    } else {
      var a, b := Accept(KeyRow(cfg, ps[0].key)), Accept(PairRow(cfg, ps[0].value));
      PairsAreActions(cfg, AfterPair(cfg, k, ps[0]), ps[1..]);
      TwoActions(cfg, k, a, b, AcceptPairs(cfg, ps[1..]));
    }
  }

  ghost predicate AllConfigured(cfg: ListConfig, ps: seq<Pair>) {
    StrictList(cfg) && forall p :: p in ps ==> Configured(cfg, p)
  }

  lemma {:induction false} FirstConfigured(cfg: ListConfig, ps: seq<Pair>)
    requires AllConfigured(cfg, ps) && ps != []
    ensures Configured(cfg, ps[0]) && AllConfigured(cfg, ps[1..])
  {
    assert ps[0] in ps;
  }

  lemma {:induction false} MovePair(done: seq<Pair>, ps: seq<Pair>)
    requires ps != []
    ensures done + [ps[0]] + ps[1..] == done + ps
  {
  }

  lemma {:induction false} NewPairKey(done: seq<Pair>, ps: seq<Pair>)
    requires ps != [] && Distinct(KeysOf(done + ps))
    ensures ps[0].key !in KeysOf(done)
  {
    var keys := KeysOf(done + ps);
    assert keys[|done|] == ps[0].key;
    assert forall i :: 0 <= i < |done| ==> keys[i] == done[i].key == KeysOf(done)[i];
  }

  lemma {:induction false} TwoActions(cfg: ListConfig, k: Desk, a: Action, b: Action, rest: seq<Action>)
    ensures var k2 := ListAct(cfg, ListAct(cfg, k, a), b);
      && ListPlay(cfg, k, [a, b] + rest) == ListPlay(cfg, k2, rest)
      && (ListLegal(cfg, k, a) && ListLegal(cfg, ListAct(cfg, k, a), b) && ListLegalRun(cfg, k2, rest) ==>
            ListLegalRun(cfg, k, [a, b] + rest))
  {
    var all := [a, b] + rest;
    assert all[0] == a && all[1..] == [b] + rest && all[1..][0] == b && all[1..][1..] == rest;
  }

  /**
   * The converse of `NoDuplicateKeys`: every list of configured pairs with different keys can be built
   * from the empty token by accepting offers alone, a key and then a value for each.
   */
  lemma {:induction false} EveryPairListIsOffered(cfg: ListConfig, before: seq<Call>, ps: seq<Pair>)
    requires Building(cfg) && OwnListCalls(cfg, before)
    requires Distinct(KeysOf(ps)) && forall p :: p in ps ==> Configured(cfg, p)
    ensures LeadsTo(cfg, ListOpen(cfg, before, ""), AcceptPairs(cfg, ps), ps)
  {
    assert [] + ps == ps;
    var calls := BuildsPairs(cfg, ListOpen(cfg, before, ""), before, [], ps);
    PairsAreActions(cfg, ListOpen(cfg, before, ""), ps);
  }
}

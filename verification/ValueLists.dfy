/** `valueList`: a token that is a list of values between one-character delimiters. */
module ValueLists {
  import opened Seqs
  import opened Js
  import opened Sessions
  import opened Suggestions
  import opened SuggestionCache

  datatype Config = Config(
    delimiter: char,
    values: Source,
    cache: bool,
    insertDelimiter: bool,
    allowRepeatedValues: bool)

  function ListTrigger(d: char): (t: Trigger) {
    (new_: string, old_: string) => LastIndexOf(new_, d) != LastIndexOf(old_, d)
  }

  function Request(cfg: Config, produced: seq<Row>): (c: Call) {
    Call(cfg.values, if cfg.insertDelimiter then [cfg.delimiter] else "", cfg.cache, produced)
  }

  /** The rows offered for the last token, from the rows the source gave. */
  function Offered(cfg: Config, rows: seq<Row>, last: Option<string>): (r: seq<Row>) {
    if cfg.allowRepeatedValues then rows
    else Exclude(if last.Some? then Split(last.value, cfg.delimiter) else [], rows)
  }

  method Custom(cache: Cache, cfg: Config, last: Option<string>, produced: seq<Row>) returns (rows: seq<Row>)
    modifies cache
    ensures var c := Request(cfg, produced);
      && rows == Offered(cfg, Answer(old(cache.entries), c), last)
      && cache.entries == Next(old(cache.entries), c)
  {
    var l := cache.Fetch(cfg.values, if cfg.insertDelimiter then [cfg.delimiter] else "", cfg.cache, produced);
    if cfg.allowRepeatedValues {
      return l;
    }
    var used := if last.Some? then Split(last.value, cfg.delimiter) else [];
    rows := Exclude(used, l);
  }

  // ----- splitting, joining and the query term

  /** The items before the one being typed. */
  function Committed(d: char, term: string): (r: seq<string>) {
    var parts := Split(term, d);
    parts[..|parts| - 1]
  }

  /** The parser undoes the printer, and the query term is the last item. */
  lemma {:induction false} TokenStructure(d: char, term: string)
    ensures Join(Split(term, d), d) == term
    ensures Split(term, d) == Committed(d, term) + [After(term, d)]
    ensures term == Through(term, d) + After(term, d)
    ensures (forall p :: p in Committed(d, term) ==> d !in p) && d !in After(term, d)
  {
    JoinSplit(term, d);
    SplitAtLast(term, d);
    SplitParts(term, d);
    ThroughAfter(term, d);
  }

  /** Among end edits the trigger fires exactly when the text through the last delimiter changes. */
  lemma {:induction false} ListTriggerExact(d: char, a: string, b: string)
    requires EndEdit(a, b)
    ensures ListTrigger(d)(b, a) <==> Through(a, d) != Through(b, d)
  {
  }

  lemma {:induction false} QuietEndEdit(d: char, a: string, b: string)
    requires EndEdit(a, b) && LastIndexOf(a, d) == LastIndexOf(b, d)
    ensures Through(a, d) == Through(b, d)
  {
  }

  /** Over every run of end edits the remembered rows were computed for the same committed items. */
  lemma {:induction false} ReuseKeepsCommitted(d: char, first: string, terms: seq<string>)
    requires Edits(EndEdit, first, terms)
    ensures var s := Run(ListTrigger(d), Start(first), terms);
      Committed(d, s.computedFor) == Committed(d, s.term)
  {
    var rel := (a: string, b: string) => Through(a, d) == Through(b, d);
    forall a, b | EndEdit(a, b) && !ListTrigger(d)(b, a)
      ensures rel(a, b)
    {
      QuietEndEdit(d, a, b);
    }
    RunKeeps(ListTrigger(d), EndEdit, rel, Start(first), terms);
    var s := Run(ListTrigger(d), Start(first), terms);
    SplitInit(s.computedFor, s.term, d);
  }

  // ----- reuse under arbitrary edits

  function SameItems(d: char): (rel: (string, string) -> bool) {
    (a: string, b: string) => Committed(d, a) == Committed(d, b)
  }

  /** The edit moves the last delimiter, or leaves the text through it alone. */
  function SafeEdit(d: char): (allowed: (string, string) -> bool) {
    (old_: string, new_: string) => ListTrigger(d)(new_, old_) || Through(old_, d) <= new_
  }

  lemma {:induction false} ThroughTwice(d: char, term: string)
    ensures Through(Through(term, d), d) == Through(term, d) && After(Through(term, d), d) == ""
  {
    ThroughAfter(term, d);
    ThroughUnique(Through(term, d), "", d);
    assert Through(term, d) + "" == Through(term, d);
  }

  lemma {:induction false} LastPart(d: char, s: string)
    ensures Split(s, d) == Committed(d, s) + [After(s, d)]
  {
    SplitAtLast(s, d);
  }

  lemma {:induction false} CommittedText(d: char, term: string)
    ensures Through(term, d) == Join(Committed(d, term) + [""], d)
  {
    var p := Through(term, d);
    ThroughTwice(d, term);
    SplitInit(p, term, d);
    LastPart(d, p);
    JoinSplit(p, d);
  }

  /** The committed items and the text through the last delimiter determine each other. */
  lemma {:induction false} CommittedIff(d: char, a: string, b: string)
    ensures Committed(d, a) == Committed(d, b) <==> Through(a, d) == Through(b, d)
  {
    CommittedText(d, a);
    CommittedText(d, b);
    if Through(a, d) == Through(b, d) {
      SplitInit(a, b, d);
    }
  }

  lemma {:induction false} QuietThroughIff(d: char, a: string, b: string)
    requires LastIndexOf(a, d) == LastIndexOf(b, d)
    ensures Through(a, d) == Through(b, d) <==> Through(a, d) <= b
  {
  }

  /** One arbitrary edit: the rows stay right exactly when it triggers or keeps the text through the last delimiter. */
  lemma {:induction false} ListAdvanceExact(d: char, s: Session, next: string)
    requires Committed(d, s.computedFor) == Committed(d, s.term)
    ensures var r := Advance(ListTrigger(d), s, next);
      Committed(d, r.computedFor) == Committed(d, r.term) <==>
        ListTrigger(d)(next, s.term) || Through(s.term, d) <= next
  {
    CommittedIff(d, s.term, next);
    if !ListTrigger(d)(next, s.term) {
      QuietThroughIff(d, s.term, next);
    }
  }

  /** Reuse is right throughout a run of arbitrary edits exactly when each of its edits is safe. */
  lemma {:induction false} ListRunExact(d: char, first: string, terms: seq<string>)
    ensures Always(ListTrigger(d), SameItems(d), Start(first), terms) <==> Edits(SafeEdit(d), first, terms)
  {
    forall a, b
      ensures SafeEdit(d)(a, b) <==> Harmless(ListTrigger(d), SameItems(d))(a, b)
    {
      CommittedIff(d, a, b);
      if !ListTrigger(d)(b, a) {
        QuietThroughIff(d, a, b);
      }
    }
    AlwaysIff(ListTrigger(d), SameItems(d), SafeEdit(d), Start(first), terms);
  }

  /**
   * After any run of arbitrary edits the last delimiters are in the same place, so the remembered
   * rows are for the current items exactly when the token begins with the text that was committed.
   */
  lemma {:induction false} ListReuseExact(d: char, first: string, terms: seq<string>)
    ensures var s := Run(ListTrigger(d), Start(first), terms);
      && LastIndexOf(s.computedFor, d) == LastIndexOf(s.term, d)
      && (Committed(d, s.computedFor) == Committed(d, s.term) <==> Through(s.computedFor, d) <= s.term)
  {
    var rel := (a: string, b: string) => LastIndexOf(a, d) == LastIndexOf(b, d);
    AnyRun(first, terms);
    RunKeeps(ListTrigger(d), AnyEdit, rel, Start(first), terms);
    var s := Run(ListTrigger(d), Start(first), terms);
    CommittedIff(d, s.computedFor, s.term);
    QuietThroughIff(d, s.computedFor, s.term);
  }

  /** Replacing a committed item by another of the same length never triggers, and leaves stale rows. */
  lemma {:induction false} ReplacedItemIsStale(d: char, x: string, y: string)
    requires |x| == |y| && x != y && d !in x && d !in y
    ensures var s := Run(ListTrigger(d), Start(x + [d]), [y + [d]]);
      s == Session(y + [d], x + [d]) && Committed(d, s.computedFor) == [x] && Committed(d, s.term) == [y]
  {
    var a, b := x + [d], y + [d];
    LastIndexOfUnique(a, d, |x|);
    LastIndexOfUnique(b, d, |y|);
    var s := Advance(ListTrigger(d), Start(a), b);
    assert Run(ListTrigger(d), Start(a), [b]) == Run(ListTrigger(d), s, []);
    CommittedDelimiter(d, x);
    SplitWhole(x, d);
    CommittedDelimiter(d, y);
    SplitWhole(y, d);
  }

  // ----- an editing session that accepts offered values

  /** `Other` is a request of another generator, which shares the cache. */
  datatype Action = Type(c: char) | Backspace | Accept(row: Row) | Other(call: Call)

  /** The session, the requests made so far by all generators, and the offers computed last. */
  datatype Desk = Desk(session: Session, calls: seq<Call>, shown: seq<Row>)

  /** The text a row inserts in place of the query term. */
  function Inserted(row: Row): (r: string) {
    if HasInsert(row) then row.insertValue.value else NameText(row.name)
  }

  function Edit(d: char, term: string, a: Action): (r: string) {
    match a
    case Type(c) => term + [c]
    case Backspace => DropLast(term)
    case Accept(row) => Through(term, d) + Inserted(row)
    case Other(_) => term
  }

  /** Plain delimiter-free values, repeats off. */
  ghost predicate Strict(cfg: Config) {
    && cfg.values.content.Strings?
    && (forall v :: v in cfg.values.content.names ==> cfg.delimiter !in v)
    && !cfg.allowRepeatedValues
  }

  /** The offers computed for a term after the requests `before`. */
  function Offers(cfg: Config, before: seq<Call>, term: string): (r: seq<Row>) {
    Offered(cfg, Answer(Stored(before), Request(cfg, [])), Some(term))
  }

  function Open(cfg: Config, before: seq<Call>, term: string): (k: Desk) {
    Desk(Start(term), before + [Request(cfg, [])], Offers(cfg, before, term))
  }

  /** The token becomes `next`, which recomputes the offers on the trigger. */
  function Move(cfg: Config, k: Desk, next: string): (r: Desk) {
    var s := Advance(ListTrigger(cfg.delimiter), k.session, next);
    if ListTrigger(cfg.delimiter)(next, k.session.term) then
      Desk(s, k.calls + [Request(cfg, [])], Offers(cfg, k.calls, next))
    else k.(session := s)
  }

  function Act(cfg: Config, k: Desk, a: Action): (r: Desk) {
    if a.Other? then k.(calls := k.calls + [a.call]) else Move(cfg, k, Edit(cfg.delimiter, k.session.term, a))
  }

  function Play(cfg: Config, k: Desk, actions: seq<Action>): (r: Desk)
    decreases |actions|
  {
    if actions == [] then k else Play(cfg, Act(cfg, k, actions[0]), actions[1..])
  }

  /** A typed delimiter commits a new item; an accepted row is one of those on screen. */
  ghost predicate Legal(cfg: Config, k: Desk, a: Action) {
    match a
    case Type(c) => c == cfg.delimiter ==> After(k.session.term, c) !in Committed(c, k.session.term)
    case Backspace => true
    case Accept(row) => row in k.shown
    case Other(call) => |call.suffix| <= 1
  }

  ghost predicate LegalRun(cfg: Config, k: Desk, actions: seq<Action>)
    decreases |actions|
  {
    actions == [] || (Legal(cfg, k, actions[0]) && LegalRun(cfg, Act(cfg, k, actions[0]), actions[1..]))
  }

  /** The text is `v` and at most one more character. */
  predicate Completes(v: string, text: string) {
    v <= text && |text| <= |v| + 1
  }

  /** The row inserts one of `names` that is not in `used`, and at most one more character. */
  ghost predicate Fits(names: seq<string>, used: seq<string>, row: Row) {
    exists v :: v in names && v !in used && Completes(v, Inserted(row))
  }

  ghost predicate AllFit(names: seq<string>, used: seq<string>, rows: seq<Row>) {
    forall row :: row in rows ==> Fits(names, used, row)
  }

  ghost predicate Good(cfg: Config, k: Desk)
    requires Strict(cfg)
  {
    && Distinct(Committed(cfg.delimiter, k.session.term))
    && Committed(cfg.delimiter, k.session.computedFor) == Committed(cfg.delimiter, k.session.term)
    && OneMark(k.calls)
    && AllFit(cfg.values.content.names, Split(k.session.computedFor, cfg.delimiter), k.shown)
  }

  /** Unused plain values under any suffix of at most one character. */
  lemma {:induction false} PlainOffersFit(names: seq<string>, used: seq<string>, suffix: string)
    requires |suffix| <= 1
    ensures AllFit(names, used, Exclude(used, AddSuffix(suffix, Map(names, PlainRow))))
  {
    ExcludePlain(used, suffix, names);
    var free := Filter(names, NotIn(used));
    var rows := AddSuffix(suffix, Map(free, PlainRow));
    forall i | 0 <= i < |rows|
      ensures Fits(names, used, rows[i])
    {
      PlainRowCompletes(suffix, free, i);
      assert free[i] in free;
    }
  }

  lemma {:induction false} PlainRowCompletes(suffix: string, free: seq<string>, i: nat)
    requires |suffix| <= 1 && i < |free|
    ensures |AddSuffix(suffix, Map(free, PlainRow))| == |free|
    ensures Completes(free[i], Inserted(AddSuffix(suffix, Map(free, PlainRow))[i]))
  {
  }

  lemma {:induction false} OffersFit(cfg: Config, before: seq<Call>, term: string)
    requires Strict(cfg) && OneMark(before)
    ensures AllFit(cfg.values.content.names, Split(term, cfg.delimiter), Offers(cfg, before, term))
  {
    var c := Request(cfg, []);
    AnswerInForce(before, c);
    PlainOffersFit(cfg.values.content.names, Split(term, cfg.delimiter), SuffixInForce(before, c.source, c.suffix));
  }

  /** The offers after any requests: the values neither committed nor typed, under the suffix in force. */
  lemma {:induction false} OfferedExact(cfg: Config, names: seq<string>, before: seq<Call>, term: string)
    requires !cfg.allowRepeatedValues && cfg.values.content == Strings(names)
    ensures var used := Committed(cfg.delimiter, term) + [After(term, cfg.delimiter)];
      Offers(cfg, before, term)
      == AddSuffix(SuffixInForce(before, cfg.values, Request(cfg, []).suffix),
                   Map(Filter(names, NotIn(used)), PlainRow))
  {
    var c := Request(cfg, []);
    LastPart(cfg.delimiter, term);
    AnswerInForce(before, c);
    ExcludePlain(Split(term, cfg.delimiter), SuffixInForce(before, cfg.values, c.suffix), names);
  }

  /** An offer of the value, with the delimiter when that is to be inserted. */
  predicate OffersValue(row: Row, v: string, insert: bool, mark: char) {
    row == Row(Single(v), if insert then Some(v + [mark]) else None, map[])
  }

  /**
   * The offers of a generator that is the first to ask for its values: one for each value neither
   * committed nor typed, in order, inserting it and the delimiter when so configured.
   */
  lemma {:induction false} OwnOffersExact(cfg: Config, names: seq<string>, before: seq<Call>, term: string, i: nat)
    requires !cfg.allowRepeatedValues && cfg.values.content == Strings(names)
    requires forall k :: 0 <= k < |before| ==> before[k].source != cfg.values
    ensures var free := Filter(names, NotIn(Committed(cfg.delimiter, term) + [After(term, cfg.delimiter)]));
      && |Offers(cfg, before, term)| == |free|
      && (i < |free| ==> OffersValue(Offers(cfg, before, term)[i], free[i], cfg.insertDelimiter, cfg.delimiter))
  {
    var free := Filter(names, NotIn(Committed(cfg.delimiter, term) + [After(term, cfg.delimiter)]));
    OfferedExact(cfg, names, before, term);
    OwnSuffix(before, cfg.values, Request(cfg, []).suffix);
    if i < |free| {
      PlainRowsExact(Request(cfg, []).suffix, free, i);
    }
  }

  /** Accepting such an offer commits exactly its value when the delimiter is inserted, and else completes the item. */
  lemma {:induction false} AcceptedOffer(cfg: Config, term: string, row: Row, v: string)
    requires OffersValue(row, v, cfg.insertDelimiter, cfg.delimiter) && cfg.delimiter !in v
    ensures var next := Edit(cfg.delimiter, term, Accept(row));
      Split(next, cfg.delimiter)
      == Committed(cfg.delimiter, term) + if cfg.insertDelimiter then [v, ""] else [v]
  {
    InsertedText(row, v, cfg.insertDelimiter, cfg.delimiter);
    if cfg.insertDelimiter {
      CommittedItem(cfg.delimiter, term, v);
    } else {
      CompletedItem(cfg.delimiter, term, v);
    }
  }

  lemma {:induction false} InsertedText(row: Row, v: string, insert: bool, mark: char)
    requires OffersValue(row, v, insert, mark)
    ensures Inserted(row) == if insert then v + [mark] else v
  {
  }

  lemma {:induction false} CommittedItem(d: char, term: string, v: string)
    requires d !in v
    ensures Split(Through(term, d) + (v + [d]), d) == Committed(d, term) + [v, ""]
  {
    AcceptMoves(d, term, v);
    LastPart(d, Through(term, d) + (v + [d]));
  }

  lemma {:induction false} CompletedItem(d: char, term: string, v: string)
    requires d !in v
    ensures Split(Through(term, d) + v, d) == Committed(d, term) + [v]
  {
    PendingText(d, term, v);
    LastPart(d, Through(term, d) + v);
    ThroughAfter(term, d);
    ThroughUnique(Through(term, d), v, d);
  }

  /**
   * How far reused offers can be from recomputed ones, whatever was requested before and since: for
   * the same committed items they agree exactly when the query terms are equal, or neither is a free value.
   */
  lemma {:induction false} ReusedOffersExact(cfg: Config, names: seq<string>, before: seq<Call>, since: seq<Call>,
      term: string, term': string)
    requires !cfg.allowRepeatedValues && cfg.values.content == Strings(names)
    requires Committed(cfg.delimiter, term) == Committed(cfg.delimiter, term')
    ensures var free := Filter(names, NotIn(Committed(cfg.delimiter, term)));
      var q, q' := After(term, cfg.delimiter), After(term', cfg.delimiter);
      Offers(cfg, before, term) == Offers(cfg, before + [Request(cfg, [])] + since, term') <==>
        q == q' || (q !in free && q' !in free)
  {
    var c, used := Request(cfg, []), Committed(cfg.delimiter, term);
    var q, q' := After(term, cfg.delimiter), After(term', cfg.delimiter);
    SuffixStays(before, c, since);
    OfferedExact(cfg, names, before, term);
    OfferedExact(cfg, names, before + [c] + since, term');
    FreeNamesAgreeIff(names, used, q, q');
    PlainRowsInjective(SuffixInForce(before, cfg.values, c.suffix),
                       Filter(names, NotIn(used + [q])), Filter(names, NotIn(used + [q'])));
  }

  /** Typing a free value in full does not trigger: it stays on offer, though recomputing would drop it. */
  lemma {:induction false} TypedValueStaysOffered(cfg: Config, names: seq<string>, before: seq<Call>, since: seq<Call>,
      term: string, v: string)
    requires !cfg.allowRepeatedValues && cfg.values.content == Strings(names) && cfg.delimiter !in v
    requires v in names && v !in Committed(cfg.delimiter, term) && v != After(term, cfg.delimiter)
    ensures var term' := Through(term, cfg.delimiter) + v;
      && !ListTrigger(cfg.delimiter)(term', term)
      && Offers(cfg, before, term) != Offers(cfg, before + [Request(cfg, [])] + since, term')
  {
    var d, p := cfg.delimiter, Through(term, cfg.delimiter);
    ThroughAfter(term, d);
    ThroughUnique(p, v, d);
    ThroughAfter(p + v, d);
    PendingText(d, term, v);
    ReusedOffersExact(cfg, names, before, since, term, p + v);
  }

  lemma {:induction false} CommittedAppend(d: char, term: string, v: string)
    requires d !in v
    ensures Committed(d, Through(term, d) + v + [d]) == Committed(d, term) + [v]
  {
    var p := Through(term, d);
    ThroughAfter(term, d);
    ThroughUnique(p, v, d);
    SplitInit(p + v, term, d);
    CommittedDelimiter(d, p + v);
  }

  lemma {:induction false} CommittedDelimiter(d: char, term: string)
    ensures Committed(d, term + [d]) == Split(term, d) == Committed(d, term) + [After(term, d)]
  {
    assert term + [d] == term + [d] + "";
    SplitAppend(term, "", d);
    SplitWhole("", d);
    TokenStructure(d, term);
  }

  lemma {:induction false} QuietCommitted(d: char, a: string, b: string)
    requires EndEdit(a, b) && LastIndexOf(a, d) == LastIndexOf(b, d)
    ensures Committed(d, a) == Committed(d, b)
  {
    QuietEndEdit(d, a, b);
    SplitInit(a, b, d);
  }

  lemma {:induction false} TypedCommitted(d: char, term: string, c: char)
    ensures Committed(d, term + [c]) == if c == d then Committed(d, term) + [After(term, d)] else Committed(d, term)
  {
    if c == d {
      CommittedDelimiter(d, term);
    } else {
      LastIndexOfUnique(term + [c], d, LastIndexOf(term, d));
      QuietCommitted(d, term, term + [c]);
    }
  }

  lemma {:induction false} TypeKeeps(d: char, term: string, c: char)
    requires Distinct(Committed(d, term))
    requires c == d ==> After(term, d) !in Committed(d, term)
    ensures Distinct(Committed(d, term + [c]))
  {
    TypedCommitted(d, term, c);
    if c == d {
      DistinctSnoc(Committed(d, term), After(term, d));
    }
  }

  lemma {:induction false} BackspaceKeeps(d: char, term: string)
    requires Distinct(Committed(d, term))
    ensures Distinct(Committed(d, DropLast(term)))
  {
    if term != "" {
      var next, c := DropLast(term), term[|term| - 1];
      assert term == next + [c];
      TypedCommitted(d, next, c);
      DistinctInit(Committed(d, next), if c == d then [After(next, d)] else []);
    }
  }

  lemma {:induction false} OneMore(v: string, text: string)
    requires Completes(v, text)
    ensures text == v || text == v + [text[|v|]]
  {
  }

  lemma {:induction false} PendingText(d: char, term: string, text: string)
    requires d !in text
    ensures Committed(d, Through(term, d) + text) == Committed(d, term)
  {
    var p := Through(term, d);
    PendingThrough(d, term, text);
    CommittedIff(d, p + text, term);
  }

  lemma {:induction false} PendingThrough(d: char, term: string, text: string)
    requires d !in text
    ensures Through(Through(term, d) + text, d) == Through(term, d)
  {
    ThroughAfter(term, d);
    ThroughUnique(Through(term, d), text, d);
  }

  /** An accepted value is committed by the delimiter after it, and by nothing else. */
  lemma {:induction false} AcceptedCommitted(d: char, term: string, v: string, text: string)
    requires d !in v && Completes(v, text)
    ensures Committed(d, Through(term, d) + text)
         == if text == v + [d] then Committed(d, term) + [v] else Committed(d, term)
  {
    if text == v + [d] {
      Associative(Through(term, d), v, [d]);
      CommittedAppend(d, term, v);
    } else {
      OneMore(v, text);
      PendingText(d, term, text);
    }
  }

  lemma {:induction false} AcceptKeeps(cfg: Config, k: Desk, row: Row)
    requires Strict(cfg) && Good(cfg, k) && row in k.shown
    ensures Distinct(Committed(cfg.delimiter, Edit(cfg.delimiter, k.session.term, Accept(row))))
  {
    var d, term, used := cfg.delimiter, k.session.term, Split(k.session.computedFor, cfg.delimiter);
    assert Fits(cfg.values.content.names, used, row);
    var v :| v in cfg.values.content.names && v !in used && Completes(v, Inserted(row));
    AcceptedCommitted(d, term, v, Inserted(row));
    DistinctSnoc(Committed(d, term), v);
  }

  lemma {:induction false} EditKeeps(cfg: Config, k: Desk, a: Action)
    requires Strict(cfg) && Good(cfg, k) && Legal(cfg, k, a)
    ensures Distinct(Committed(cfg.delimiter, Edit(cfg.delimiter, k.session.term, a)))
  {
    match a
    case Type(c) => TypeKeeps(cfg.delimiter, k.session.term, c);
    case Backspace => BackspaceKeeps(cfg.delimiter, k.session.term);
    case Accept(row) => AcceptKeeps(cfg, k, row);
    case Other(_) =>
  }

  /** Every action keeps the text through the last delimiter, or moves that delimiter. */
  lemma {:induction false} ActionIsSafe(d: char, term: string, a: Action)
    ensures SafeEdit(d)(term, Edit(d, term, a))
  {
    var p, next := Through(term, d), Edit(d, term, a);
    match a
    case Type(c) => assert next[..|p|] == p;
    case Backspace =>
      if !ListTrigger(d)(next, term) {
        QuietEndEdit(d, term, next);
        assert next[..|p|] == p;
      }
    case Accept(row) => assert next[..|p|] == p;
    case Other(_) =>
  }

  lemma {:induction false} ActKeeps(cfg: Config, k: Desk, a: Action)
    requires Strict(cfg) && Good(cfg, k) && Legal(cfg, k, a)
    ensures Good(cfg, Act(cfg, k, a))
  {
    var next := Edit(cfg.delimiter, k.session.term, a);
    EditKeeps(cfg, k, a);
    ActionIsSafe(cfg.delimiter, k.session.term, a);
    ListAdvanceExact(cfg.delimiter, k.session, next);
    OffersFit(cfg, k.calls, next);
  }

  lemma {:induction false} PlayKeeps(cfg: Config, k: Desk, actions: seq<Action>)
    requires Strict(cfg) && Good(cfg, k) && LegalRun(cfg, k, actions)
    ensures Good(cfg, Play(cfg, k, actions))
    decreases |actions|
  {
    if actions == [] {
    } else {
      ActKeeps(cfg, k, actions[0]);
      PlayKeeps(cfg, Act(cfg, k, actions[0]), actions[1..]);
    }
  }

  /**
   * No duplicates over every run: typing, deleting and accepting offers from the empty token keeps
   * the committed values pairwise distinct, although offers are only recomputed on the trigger and
   * come from a cache that other generators fill before and during the run.
   */
  lemma {:induction false} NoDuplicates(cfg: Config, before: seq<Call>, actions: seq<Action>)
    requires Strict(cfg) && OneMark(before)
    ensures var k := Open(cfg, before, "");
      LegalRun(cfg, k, actions) ==> Distinct(Committed(cfg.delimiter, Play(cfg, k, actions).session.term))
  {
    var k := Open(cfg, before, "");
    if LegalRun(cfg, k, actions) {
      SplitWhole("", cfg.delimiter);
      OffersFit(cfg, before, "");
      PlayKeeps(cfg, k, actions);
    }
  }

  // ----- every list can be built from offers

  function ValueRow(cfg: Config): (f: string -> Row) {
    (v: string) => Row(Single(v), Some(v + [cfg.delimiter]), map[])
  }

  function AcceptValue(cfg: Config): (f: string -> Action) {
    (v: string) => Accept(ValueRow(cfg)(v))
  }

  /** A value that can be offered: configured, and not the empty one being typed. */
  ghost predicate Offerable(cfg: Config, v: string) {
    cfg.values.content.Strings? && v in cfg.values.content.names && v != ""
  }

  /** Requests for this generator's values so far are its own. */
  ghost predicate OwnCalls(cfg: Config, calls: seq<Call>) {
    forall k :: 0 <= k < |calls| && calls[k].source == cfg.values ==> calls[k].suffix == [cfg.delimiter]
  }

  /** The values in `done` are committed, nothing is typed, and the screen has every other one. */
  ghost predicate Ready(cfg: Config, k: Desk, done: seq<string>) {
    && Committed(cfg.delimiter, k.session.term) == done && After(k.session.term, cfg.delimiter) == ""
    && OwnCalls(cfg, k.calls)
    && forall v :: Offerable(cfg, v) && v !in done ==> ValueRow(cfg)(v) in k.shown
  }

  lemma {:induction false} OwnSuffixInForce(cfg: Config, calls: seq<Call>)
    requires OwnCalls(cfg, calls)
    ensures SuffixInForce(calls, cfg.values, [cfg.delimiter]) == [cfg.delimiter]
  {
  }

  lemma {:induction false} FreeIsOffered(cfg: Config, calls: seq<Call>, term: string, v: string)
    requires Strict(cfg) && cfg.insertDelimiter && OwnCalls(cfg, calls) && Offerable(cfg, v)
    requires After(term, cfg.delimiter) == "" && v !in Committed(cfg.delimiter, term)
    ensures ValueRow(cfg)(v) in Offers(cfg, calls, term)
  {
    var names := cfg.values.content.names;
    var free := Filter(names, NotIn(Committed(cfg.delimiter, term) + [""]));
    OfferedExact(cfg, names, calls, term);
    OwnSuffixInForce(cfg, calls);
    assert v in free;
    var i :| 0 <= i < |free| && free[i] == v;
    PlainRowsExact([cfg.delimiter], free, i);
  }

  lemma {:induction false} ReadyAfter(cfg: Config, calls: seq<Call>, term: string, done: seq<string>, k: Desk)
    requires Strict(cfg) && cfg.insertDelimiter && OwnCalls(cfg, calls)
    requires Committed(cfg.delimiter, term) == done && After(term, cfg.delimiter) == ""
    requires k.session.term == term && k.calls == calls + [Request(cfg, [])] && k.shown == Offers(cfg, calls, term)
    ensures Ready(cfg, k, done)
  {
    forall v | Offerable(cfg, v) && v !in done
      ensures ValueRow(cfg)(v) in k.shown
    {
      FreeIsOffered(cfg, calls, term, v);
    }
  }

  lemma {:induction false} AcceptMoves(d: char, term: string, v: string)
    requires d !in v
    ensures var next := Through(term, d) + (v + [d]);
      && ListTrigger(d)(next, term)
      && Committed(d, next) == Committed(d, term) + [v] && After(next, d) == ""
  {
    var p := Through(term, d);
    Associative(p, v, [d]);
    CommittedAppend(d, term, v);
    ThroughUnique(p + v + [d], "", d);
    assert p + v + [d] + "" == p + v + [d];
    ThroughAfter(p + v + [d], d);
    ThroughAfter(term, d);
  }

  lemma {:induction false} AcceptedIsReady(cfg: Config, k: Desk, done: seq<string>, v: string)
    requires Strict(cfg) && cfg.insertDelimiter && Ready(cfg, k, done) && Offerable(cfg, v) && v !in done
    ensures Legal(cfg, k, AcceptValue(cfg)(v)) && Ready(cfg, Act(cfg, k, AcceptValue(cfg)(v)), done + [v])
  {
    var next := Through(k.session.term, cfg.delimiter) + (v + [cfg.delimiter]);
    AcceptMoves(cfg.delimiter, k.session.term, v);
    assert Edit(cfg.delimiter, k.session.term, AcceptValue(cfg)(v)) == next;
    ReadyAfter(cfg, k.calls, next, done + [v], Act(cfg, k, AcceptValue(cfg)(v)));
  }

  lemma {:induction false} Builds(cfg: Config, k: Desk, done: seq<string>, vs: seq<string>)
    requires Strict(cfg) && cfg.insertDelimiter && Ready(cfg, k, done)
    requires Distinct(done + vs) && forall v :: v in vs ==> Offerable(cfg, v)
    ensures LegalRun(cfg, k, Map(vs, AcceptValue(cfg)))
    ensures Ready(cfg, Play(cfg, k, Map(vs, AcceptValue(cfg))), done + vs)
    decreases |vs|
  {
    if vs == [] {
      assert done + vs == done;
    } else {
      var v, rest := vs[0], vs[1..];
      assert v in vs && v !in done by {
        assert (done + vs)[|done|] == v;
        assert forall i :: 0 <= i < |done| ==> (done + vs)[i] == done[i];
      }
      assert done + [v] + rest == done + vs;
      assert Map(vs, AcceptValue(cfg)) == [AcceptValue(cfg)(v)] + Map(rest, AcceptValue(cfg));
      AcceptedIsReady(cfg, k, done, v);
      Builds(cfg, Act(cfg, k, AcceptValue(cfg)(v)), done + [v], rest);
    }
  }

  /**
   * The converse of `NoDuplicates`: from a token with nothing typed, every list of further configured
   * values without duplicates can be built by accepting offers alone, if they insert the delimiter.
   */
  lemma {:induction false} EveryListIsOffered(cfg: Config, before: seq<Call>, term: string, vs: seq<string>)
    requires Strict(cfg) && cfg.insertDelimiter && OwnCalls(cfg, before) && After(term, cfg.delimiter) == ""
    requires Distinct(Committed(cfg.delimiter, term) + vs) && forall v :: v in vs ==> Offerable(cfg, v)
    ensures var k, actions := Open(cfg, before, term), Map(vs, AcceptValue(cfg));
      && LegalRun(cfg, k, actions)
      && Split(Play(cfg, k, actions).session.term, cfg.delimiter) == Committed(cfg.delimiter, term) + vs + [""]
  {
    var k, done := Open(cfg, before, term), Committed(cfg.delimiter, term);
    ReadyAfter(cfg, before, term, done, k);
    Builds(cfg, k, done, vs);
    ReadySplits(cfg, Play(cfg, k, Map(vs, AcceptValue(cfg))), done + vs);
  }

  lemma {:induction false} ReadySplits(cfg: Config, k: Desk, done: seq<string>)
    requires Ready(cfg, k, done)
    ensures Split(k.session.term, cfg.delimiter) == done + [""]
  {
    LastPart(cfg.delimiter, k.session.term);
  }

  /** Typing the delimiter is the only way to repeat a value, and repeats exactly a committed one. */
  lemma {:induction false} TypedDelimiterExact(d: char, term: string)
    requires Distinct(Committed(d, term))
    ensures Distinct(Committed(d, term + [d])) <==> After(term, d) !in Committed(d, term)
  {
    CommittedDelimiter(d, term);
    var before := Committed(d, term);
    var after := Committed(d, term + [d]);
    if After(term, d) in before {
      var i :| 0 <= i < |before| && before[i] == After(term, d);
      assert after[i] == after[|before|];
    }
  }
}

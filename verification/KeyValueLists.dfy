/** `keyValueList`: a token that is a delimited list of key/value pairs. */
module KeyValueLists {
  import opened Seqs
  import opened Js
  import opened Sessions
  import opened Suggestions
  import opened SuggestionCache
  import opened KeyValues
  import opened ValueLists

  datatype ListConfig = ListConfig(
    separator: char,
    delimiter: char,
    keys: Source,
    values: Source,
    cache: CacheMode,
    insertSeparator: bool,
    insertDelimiter: bool,
    allowRepeatedKeys: bool,
    allowRepeatedValues: bool)

  // ----- classifying the cursor position

  /** The index of the last separator or delimiter, or -1. */
  function LastMark(sep: char, del: char, term: string): (i: int)
    ensures -1 <= i < |term|
    ensures i >= 0 ==> term[i] == sep || term[i] == del
    ensures forall j :: i < j < |term| ==> term[j] != sep && term[j] != del
  {
    var a, b := LastIndexOf(term, sep), LastIndexOf(term, del);
    if a > b then a else b
  }

  function MarkTrigger(sep: char, del: char): (t: Trigger) {
    (new_: string, old_: string) => LastMark(sep, del, new_) != LastMark(sep, del, old_)
  }

  function MarkQuery(sep: char, del: char, term: string): (r: string) {
    term[LastMark(sep, del, term) + 1..]
  }

  function ThroughMark(sep: char, del: char, term: string): (r: string) {
    term[..LastMark(sep, del, term) + 1]
  }

  predicate AtKey(sep: char, del: char, term: string) {
    var y := LastMark(sep, del, term);
    y == -1 || term[y..y + 1] != [sep]
  }

  // ----- the generator

  function KeySuffix(cfg: ListConfig): (r: string) {
    if cfg.insertSeparator then [cfg.separator] else ""
  }

  function ValueSuffix(cfg: ListConfig): (r: string) {
    if cfg.insertDelimiter then [cfg.delimiter] else ""
  }

  function ListRequest(cfg: ListConfig, term: string, produced: seq<Row>): (c: Call) {
    var isKey := AtKey(cfg.separator, cfg.delimiter, term);
    Call(if isKey then cfg.keys else cfg.values,
         if isKey then KeySuffix(cfg) else ValueSuffix(cfg),
         UseCache(isKey, cfg.cache),
         produced)
  }

  /** `item.slice(0, item.indexOf(sep))`: without a separator, the item minus its last character. */
  function KeyOf(sep: char): (f: string -> string) {
    (item: string) => SliceTo(item, IndexOf(item, sep))
  }

  /** `item.slice(item.indexOf(sep) + 1)`: without a separator, the whole item. */
  function ValueOf(sep: char): (f: string -> string) {
    (item: string) => item[IndexOf(item, sep) + 1..]
  }

  function UsedKeys(sep: char, del: char, term: string): (r: seq<string>) {
    Map(Split(term, del), KeyOf(sep))
  }

  function UsedValues(sep: char, del: char, term: string): (r: seq<string>) {
    Map(Split(term, del), ValueOf(sep))
  }

  /** The rows offered for a token, from the rows its source gave. */
  function ListOffered(cfg: ListConfig, rows: seq<Row>, term: string): (r: seq<Row>) {
    if AtKey(cfg.separator, cfg.delimiter, term) then
      if cfg.allowRepeatedKeys then rows else Exclude(UsedKeys(cfg.separator, cfg.delimiter, term), rows)
    else
      if cfg.allowRepeatedValues then rows else Exclude(UsedValues(cfg.separator, cfg.delimiter, term), rows)
  }

  /** The offers computed for a term after the requests `before`, for array sources. */
  function ListOffers(cfg: ListConfig, before: seq<Call>, term: string): (r: seq<Row>) {
    ListOffered(cfg, Answer(Stored(before), ListRequest(cfg, term, [])), term)
  }

  method ListCustom(cache: Cache, cfg: ListConfig, term: string, produced: seq<Row>) returns (rows: seq<Row>)
    modifies cache
    ensures var c := ListRequest(cfg, term, produced);
      && rows == ListOffered(cfg, Answer(old(cache.entries), c), term)
      && cache.entries == Next(old(cache.entries), c)
  {
    var isKey := AtKey(cfg.separator, cfg.delimiter, term);
    var p := cache.Fetch(if isKey then cfg.keys else cfg.values,
                         if isKey then KeySuffix(cfg) else ValueSuffix(cfg),
                         UseCache(isKey, cfg.cache), produced);
    if (isKey && cfg.allowRepeatedKeys) || (!isKey && cfg.allowRepeatedValues) {
      return p;
    }
    var used := Map(Split(term, cfg.delimiter), if isKey then KeyOf(cfg.separator) else ValueOf(cfg.separator));
    rows := Exclude(used, p);
  }

  // ----- the printer

  datatype Pair = Pair(key: string, value: string)

  /** Keys contain neither mark; values may contain the separator. */
  predicate Clean(sep: char, del: char, p: Pair) {
    sep !in p.key && del !in p.key && del !in p.value
  }

  ghost predicate AllClean(sep: char, del: char, ps: seq<Pair>) {
    forall p :: p in ps ==> Clean(sep, del, p)
  }

  function PrintPair(sep: char): (f: Pair -> string) {
    (p: Pair) => p.key + [sep] + p.value
  }

  /** Complete pairs, each followed by the delimiter. */
  function Print(sep: char, del: char, ps: seq<Pair>): (r: string)
    ensures r == "" || EndsWith(r, del)
  {
    if ps == [] then "" else PrintPair(sep)(ps[0]) + [del] + Print(sep, del, ps[1..])
  }

  function KeyPart(p: Pair): (r: string) {
    p.key
  }

  function ValuePart(p: Pair): (r: string) {
    p.value
  }

  function KeysOf(ps: seq<Pair>): (r: seq<string>) {
    Map(ps, KeyPart)
  }

  function ValuesOf(ps: seq<Pair>): (r: seq<string>) {
    Map(ps, ValuePart)
  }

  // ----- the parser undoes the printer

  lemma {:induction false} MarkAfter(sep: char, del: char, p: string, r: string)
    requires p == "" || EndsWith(p, sep) || EndsWith(p, del)
    requires sep !in r && del !in r
    ensures LastMark(sep, del, p + r) == |p| - 1
    ensures ThroughMark(sep, del, p + r) == p && MarkQuery(sep, del, p + r) == r
  {
    forall j | |p| <= j < |p + r|
      ensures (p + r)[j] != sep && (p + r)[j] != del
    {
      assert (p + r)[j] == r[j - |p|];
    }
    assert p != "" ==> (p + r)[|p| - 1] == p[|p| - 1];
    assert (p + r)[..|p|] == p && (p + r)[|p|..] == r;
  }

  lemma {:induction false} PairParts(sep: char, p: Pair)
    requires sep !in p.key
    ensures KeyOf(sep)(PrintPair(sep)(p)) == p.key && ValueOf(sep)(PrintPair(sep)(p)) == p.value
  {
    var item := PrintPair(sep)(p);
    assert item[|p.key|] == sep;
    IndexOfUnique(item, sep, |p.key|);
    assert item[..|p.key|] == p.key && item[|p.key| + 1..] == p.value;
  }

  lemma {:induction false} SplitPrinted(sep: char, del: char, ps: seq<Pair>, tail: string)
    requires sep != del && AllClean(sep, del, ps) && del !in tail
    ensures Split(Print(sep, del, ps) + tail, del) == Map(ps, PrintPair(sep)) + [tail]
  {
    if ps == [] {
      assert Print(sep, del, ps) + tail == tail;
      SplitWhole(tail, del);
    } else {
      var item := PrintPair(sep)(ps[0]);
      var rest := Print(sep, del, ps[1..]) + tail;
      assert ps[0] in ps;
      SplitWhole(item, del);
      assert Print(sep, del, ps) + tail == item + [del] + rest;
      SplitAppend(item, rest, del);
      SplitPrinted(sep, del, ps[1..], tail);
    }
  }

  lemma {:induction false} ParsePrinted(sep: char, del: char, ps: seq<Pair>, tail: string)
    requires sep != del && AllClean(sep, del, ps) && del !in tail
    ensures UsedKeys(sep, del, Print(sep, del, ps) + tail) == KeysOf(ps) + [KeyOf(sep)(tail)]
    ensures UsedValues(sep, del, Print(sep, del, ps) + tail) == ValuesOf(ps) + [ValueOf(sep)(tail)]
  {
    forall i | 0 <= i < |ps|
      ensures KeyOf(sep)(PrintPair(sep)(ps[i])) == KeyPart(ps[i])
      ensures ValueOf(sep)(PrintPair(sep)(ps[i])) == ValuePart(ps[i])
    {
      assert ps[i] in ps;
      PairParts(sep, ps[i]);
    }
    ParsePart(sep, del, ps, tail, KeyOf(sep), KeyPart);
    ParsePart(sep, del, ps, tail, ValueOf(sep), ValuePart);
  }

  lemma {:induction false} ParsePart(sep: char, del: char, ps: seq<Pair>, tail: string,
      f: string -> string, part: Pair -> string)
    requires sep != del && AllClean(sep, del, ps) && del !in tail
    requires forall i :: 0 <= i < |ps| ==> f(PrintPair(sep)(ps[i])) == part(ps[i])
    ensures Map(Split(Print(sep, del, ps) + tail, del), f) == Map(ps, part) + [f(tail)]
  {
    SplitPrinted(sep, del, ps, tail);
    MapMap(ps, PrintPair(sep), f, part);
    MapSnoc(Map(ps, PrintPair(sep)), tail, f);
  }

  /** Round trip for a token that ends in a partial key. */
  lemma {:induction false} PartialKeyRoundTrip(sep: char, del: char, ps: seq<Pair>, k: string)
    requires sep != del && AllClean(sep, del, ps) && sep !in k && del !in k
    ensures var term := Print(sep, del, ps) + k;
      && AtKey(sep, del, term)
      && MarkQuery(sep, del, term) == k
      && ThroughMark(sep, del, term) == Print(sep, del, ps)
      && UsedKeys(sep, del, term) == KeysOf(ps) + [DropLast(k)]
  {
    AfterDelimiter(sep, del, Print(sep, del, ps), k);
    ParsePrinted(sep, del, ps, k);
    Absent(k, sep);
  }

  lemma {:induction false} AfterDelimiter(sep: char, del: char, p: string, k: string)
    requires sep != del && (p == "" || EndsWith(p, del)) && sep !in k && del !in k
    ensures AtKey(sep, del, p + k) && MarkQuery(sep, del, p + k) == k && ThroughMark(sep, del, p + k) == p
  {
    MarkAfter(sep, del, p, k);
    if p != "" {
      assert (p + k)[|p| - 1..|p|] == [del];
    }
  }

  /** Round trip for a token that ends in a partial value. */
  lemma {:induction false} PartialValueRoundTrip(sep: char, del: char, ps: seq<Pair>, key: string, v: string)
    requires sep != del && AllClean(sep, del, ps + [Pair(key, v)]) && sep !in v
    ensures var term := Print(sep, del, ps) + (key + [sep] + v);
      && !AtKey(sep, del, term)
      && MarkQuery(sep, del, term) == v
      && UsedKeys(sep, del, term) == KeysOf(ps) + [key]
      && UsedValues(sep, del, term) == ValuesOf(ps) + [v]
  {
    var last := Pair(key, v);
    assert last in ps + [last] && forall p :: p in ps ==> p in ps + [last];
    AfterSeparator(sep, del, Print(sep, del, ps), key, v);
    ParsePrinted(sep, del, ps, PrintPair(sep)(last));
    PairParts(sep, last);
  }

  lemma {:induction false} AfterSeparator(sep: char, del: char, front: string, key: string, v: string)
    requires sep !in v && del !in v
    ensures var term := front + (key + [sep] + v);
      !AtKey(sep, del, term) && MarkQuery(sep, del, term) == v
  {
    var p := front + key + [sep];
    assert front + (key + [sep] + v) == p + v;
    MarkAfter(sep, del, p, v);
    assert (p + v)[|p| - 1..|p|] == [sep];
  }

  // ----- the printer undoes the parser

  function ToPair(sep: char): (f: string -> Pair) {
    (item: string) => Pair(KeyOf(sep)(item), ValueOf(sep)(item))
  }

  lemma {:induction false} PrintItems(sep: char, del: char, items: seq<string>, k: string)
    requires sep != del
    requires forall x :: x in items ==> sep in x && del !in x
    ensures Join(items + [k], del) == Print(sep, del, Map(items, ToPair(sep))) + k
    ensures AllClean(sep, del, Map(items, ToPair(sep)))
  {
    if items == [] {
      assert items + [k] == [k];
    } else {
      var x := items[0];
      assert x in items;
      PrintItems(sep, del, items[1..], k);
      assert items + [k] == [x] + (items[1..] + [k]);
      JoinPrepend(x, items[1..] + [k], del);
      ItemIsPair(sep, x);
    }
  }

  lemma {:induction false} ItemIsPair(sep: char, x: string)
    requires sep in x
    ensures PrintPair(sep)(ToPair(sep)(x)) == x && sep !in KeyOf(sep)(x)
  {
    Absent(x, sep);
    var i := IndexOf(x, sep);
    assert KeyOf(sep)(x) == x[..i] && ValueOf(sep)(x) == x[i + 1..];
    Reassemble(x, i);
  }

  /** A token at key position whose earlier items all have a separator is a printed list of pairs. */
  lemma {:induction false} ParseThenPrint(sep: char, del: char, term: string)
    requires sep != del && AtKey(sep, del, term)
    requires forall x :: x in Committed(del, term) ==> sep in x
    ensures var ps := Map(Committed(del, term), ToPair(sep));
      term == Print(sep, del, ps) + MarkQuery(sep, del, term) && AllClean(sep, del, ps)
  {
    TokenStructure(del, term);
    PrintItems(sep, del, Committed(del, term), After(term, del));
    KeyPositionMark(sep, del, term);
  }

  lemma {:induction false} KeyPositionMark(sep: char, del: char, term: string)
    requires AtKey(sep, del, term)
    ensures LastMark(sep, del, term) == LastIndexOf(term, del)
  {
  }

  // ----- what is offered

  /**
   * Offered keys are exact: after any requests, for complete pairs and a partial key, with repeats
   * off, the configured keys in order, except the keys of the pairs and the partial key minus its
   * last character, with the suffix of whoever asked first for these keys.
   */
  lemma {:induction false} OfferedKeysExact(cfg: ListConfig, names: seq<string>, before: seq<Call>,
      ps: seq<Pair>, k: string)
    requires cfg.separator != cfg.delimiter && !cfg.allowRepeatedKeys && cfg.keys.content == Strings(names)
    requires AllClean(cfg.separator, cfg.delimiter, ps) && cfg.separator !in k && cfg.delimiter !in k
    ensures ListOffers(cfg, before, Print(cfg.separator, cfg.delimiter, ps) + k)
         == AddSuffix(SuffixInForce(before, cfg.keys, KeySuffix(cfg)),
                      Map(Filter(names, NotIn(KeysOf(ps) + [DropLast(k)])), PlainRow))
  {
    PartialKeyRoundTrip(cfg.separator, cfg.delimiter, ps, k);
    AnswerInForce(before, ListRequest(cfg, Print(cfg.separator, cfg.delimiter, ps) + k, []));
    ExcludePlain(KeysOf(ps) + [DropLast(k)], SuffixInForce(before, cfg.keys, KeySuffix(cfg)), names);
  }

  /** Offered values, with repeats off: all but the values of the pairs and the value as typed so far. */
  lemma {:induction false} OfferedValuesExact(cfg: ListConfig, names: seq<string>, before: seq<Call>,
      ps: seq<Pair>, key: string, v: string)
    requires cfg.separator != cfg.delimiter && !cfg.allowRepeatedValues && cfg.values.content == Strings(names)
    requires AllClean(cfg.separator, cfg.delimiter, ps + [Pair(key, v)]) && cfg.separator !in v
    ensures ListOffers(cfg, before, Print(cfg.separator, cfg.delimiter, ps) + (key + [cfg.separator] + v))
         == AddSuffix(SuffixInForce(before, cfg.values, ValueSuffix(cfg)),
                      Map(Filter(names, NotIn(ValuesOf(ps) + [v])), PlainRow))
  {
    PartialValueRoundTrip(cfg.separator, cfg.delimiter, ps, key, v);
    AnswerInForce(before, ListRequest(cfg, Print(cfg.separator, cfg.delimiter, ps) + (key + [cfg.separator] + v), []));
    ExcludePlain(ValuesOf(ps) + [v], SuffixInForce(before, cfg.values, ValueSuffix(cfg)), names);
  }

  /**
   * The keys offered by the first generator to ask for them: one for each key still free, in order,
   * inserting it and the separator when so configured.
   */
  lemma {:induction false} OwnKeyOffersExact(cfg: ListConfig, names: seq<string>, before: seq<Call>,
      ps: seq<Pair>, k: string, i: nat)
    requires cfg.separator != cfg.delimiter && !cfg.allowRepeatedKeys && cfg.keys.content == Strings(names)
    requires AllClean(cfg.separator, cfg.delimiter, ps) && cfg.separator !in k && cfg.delimiter !in k
    requires forall j :: 0 <= j < |before| ==> before[j].source != cfg.keys
    ensures var offers := ListOffers(cfg, before, Print(cfg.separator, cfg.delimiter, ps) + k);
      var free := Filter(names, NotIn(KeysOf(ps) + [DropLast(k)]));
      && |offers| == |free|
      && (i < |free| ==> OffersValue(offers[i], free[i], cfg.insertSeparator, cfg.separator))
  {
    var free := Filter(names, NotIn(KeysOf(ps) + [DropLast(k)]));
    OfferedKeysExact(cfg, names, before, ps, k);
    OwnSuffix(before, cfg.keys, KeySuffix(cfg));
    if i < |free| {
      PlainRowsExact(KeySuffix(cfg), free, i);
    }
  }

  /** The same for values and the delimiter. */
  lemma {:induction false} OwnValueOffersExact(cfg: ListConfig, names: seq<string>, before: seq<Call>,
      ps: seq<Pair>, key: string, v: string, i: nat)
    requires cfg.separator != cfg.delimiter && !cfg.allowRepeatedValues && cfg.values.content == Strings(names)
    requires AllClean(cfg.separator, cfg.delimiter, ps + [Pair(key, v)]) && cfg.separator !in v
    requires forall j :: 0 <= j < |before| ==> before[j].source != cfg.values
    ensures var term := Print(cfg.separator, cfg.delimiter, ps) + (key + [cfg.separator] + v);
      var offers := ListOffers(cfg, before, term);
      var free := Filter(names, NotIn(ValuesOf(ps) + [v]));
      && |offers| == |free|
      && (i < |free| ==> OffersValue(offers[i], free[i], cfg.insertDelimiter, cfg.delimiter))
  {
    var free := Filter(names, NotIn(ValuesOf(ps) + [v]));
    OfferedValuesExact(cfg, names, before, ps, key, v);
    OwnSuffix(before, cfg.values, ValueSuffix(cfg));
    if i < |free| {
      PlainRowsExact(ValueSuffix(cfg), free, i);
    }
  }

  /** With repeats allowed at the position of the token, nothing is left out. */
  lemma {:induction false} RepeatsAllowed(cfg: ListConfig, rows: seq<Row>, ps: seq<Pair>, key: string, v: string)
    requires cfg.separator != cfg.delimiter && AllClean(cfg.separator, cfg.delimiter, ps + [Pair(key, v)])
    requires cfg.separator !in v
    ensures cfg.allowRepeatedKeys ==>
      ListOffered(cfg, rows, Print(cfg.separator, cfg.delimiter, ps) + key) == rows
    ensures cfg.allowRepeatedValues ==>
      ListOffered(cfg, rows, Print(cfg.separator, cfg.delimiter, ps) + (key + [cfg.separator] + v)) == rows
  {
    assert Clean(cfg.separator, cfg.delimiter, (ps + [Pair(key, v)])[|ps|]);
    AfterDelimiter(cfg.separator, cfg.delimiter, Print(cfg.separator, cfg.delimiter, ps), key);
    PartialValueRoundTrip(cfg.separator, cfg.delimiter, ps, key, v);
  }

  /** Accepting an offered key with its separator leads to the value position of that key. */
  lemma {:induction false} AcceptedKeyAwaitsValue(sep: char, del: char, ps: seq<Pair>, k: string,
      row: Row, name: string)
    requires sep != del && AllClean(sep, del, ps) && sep !in k && del !in k && sep !in name && del !in name
    requires OffersValue(row, name, true, sep)
    ensures var next := ThroughMark(sep, del, Print(sep, del, ps) + k) + Inserted(row);
      && !AtKey(sep, del, next) && MarkQuery(sep, del, next) == ""
      && UsedKeys(sep, del, next) == KeysOf(ps) + [name] && UsedValues(sep, del, next) == ValuesOf(ps) + [""]
  {
    PartialKeyRoundTrip(sep, del, ps, k);
    SnocIsClean(sep, del, ps, Pair(name, ""));
    PartialValueRoundTrip(sep, del, ps, name, "");
    assert name + [sep] + "" == name + [sep];
  }

  /** Accepting an offered value with its delimiter completes the pair and leads to the next key. */
  lemma {:induction false} AcceptedValueAwaitsKey(sep: char, del: char, ps: seq<Pair>, key: string, v: string,
      row: Row, name: string)
    requires sep != del && AllClean(sep, del, ps + [Pair(key, v)]) && sep !in v && del !in name
    requires OffersValue(row, name, true, del)
    ensures var next := ThroughMark(sep, del, Print(sep, del, ps) + (key + [sep] + v)) + Inserted(row);
      && next == Print(sep, del, ps + [Pair(key, name)])
      && AtKey(sep, del, next) && MarkQuery(sep, del, next) == ""
  {
    assert Clean(sep, del, (ps + [Pair(key, v)])[|ps|]);
    ThroughValue(sep, del, Print(sep, del, ps), key, v);
    PrintSnoc(sep, del, ps, Pair(key, name));
    RegroupPair(Print(sep, del, ps), key, sep, name, del);
    PrintIsAtKey(sep, del, ps + [Pair(key, name)]);
  }

  lemma {:induction false} PrintIsAtKey(sep: char, del: char, ps: seq<Pair>)
    requires sep != del
    ensures AtKey(sep, del, Print(sep, del, ps)) && MarkQuery(sep, del, Print(sep, del, ps)) == ""
  {
    AfterDelimiter(sep, del, Print(sep, del, ps), "");
    assert Print(sep, del, ps) + "" == Print(sep, del, ps);
  }

  lemma {:induction false} RegroupPair(front: string, key: string, sep: char, v: string, del: char)
    ensures front + key + [sep] + (v + [del]) == front + (key + [sep] + v + [del])
  {
  }

  lemma {:induction false} SnocIsClean(sep: char, del: char, ps: seq<Pair>, p: Pair)
    requires AllClean(sep, del, ps) && Clean(sep, del, p)
    ensures AllClean(sep, del, ps + [p])
  {
  }

  lemma {:induction false} ThroughValue(sep: char, del: char, front: string, key: string, v: string)
    requires sep !in v && del !in v
    ensures ThroughMark(sep, del, front + (key + [sep] + v)) == front + key + [sep]
  {
    var p := front + key + [sep];
    assert front + (key + [sep] + v) == p + v;
    MarkAfter(sep, del, p, v);
  }

  lemma {:induction false} PrintSnoc(sep: char, del: char, ps: seq<Pair>, p: Pair)
    ensures Print(sep, del, ps + [p]) == Print(sep, del, ps) + (p.key + [sep] + p.value + [del])
  {
    var item := p.key + [sep] + p.value + [del];
    if ps == [] {
      assert ps + [p] == [p] && [p][1..] == [];
      assert Print(sep, del, [p]) == item + "";
    } else {
      assert (ps + [p])[0] == ps[0] && (ps + [p])[1..] == ps[1..] + [p];
      PrintSnoc(sep, del, ps[1..], p);
      Associative(PrintPair(sep)(ps[0]) + [del], Print(sep, del, ps[1..]), item);
    }
  }

  // ----- reuse

  predicate SameMarks(sep: char, del: char, a: string, b: string) {
    ThroughMark(sep, del, a) == ThroughMark(sep, del, b)
  }

  lemma {:induction false} SameMarksSameItems(sep: char, del: char, a: string, b: string)
    requires SameMarks(sep, del, a, b)
    ensures AtKey(sep, del, a) == AtKey(sep, del, b)
    ensures Committed(del, a) == Committed(del, b)
  {
    var p := ThroughMark(sep, del, a);
    assert |p| == LastMark(sep, del, a) + 1 == LastMark(sep, del, b) + 1;
    if |p| > 0 {
      assert a[|p| - 1..|p|] == [p[|p| - 1]] == b[|p| - 1..|p|];
    }
    ThroughWithin(sep, del, a);
    ThroughWithin(sep, del, b);
    SplitInit(a, b, del);
  }

  lemma {:induction false} ThroughWithin(sep: char, del: char, a: string)
    ensures Through(a, del) == Through(ThroughMark(sep, del, a), del)
  {
  }

  /** Among end edits the trigger fires exactly when the text through the last mark changes. */
  lemma {:induction false} MarkTriggerExact(sep: char, del: char, a: string, b: string)
    requires EndEdit(a, b)
    ensures MarkTrigger(sep, del)(b, a) <==> !SameMarks(sep, del, a, b)
  {
  }

  /**
   * Reuse over every run of end edits: the key/value mode and the text through the last mark at the
   * last recomputation are those of the current token.
   */
  lemma {:induction false} ReuseKeepsMarks(sep: char, del: char, first: string, terms: seq<string>)
    requires Edits(EndEdit, first, terms)
    ensures var s := Run(MarkTrigger(sep, del), Start(first), terms);
      && SameMarks(sep, del, s.computedFor, s.term)
      && AtKey(sep, del, s.computedFor) == AtKey(sep, del, s.term)
      && Committed(del, s.computedFor) == Committed(del, s.term)
  {
    var rel := (a: string, b: string) => SameMarks(sep, del, a, b);
    forall a, b | EndEdit(a, b) && !MarkTrigger(sep, del)(b, a)
      ensures rel(a, b)
    {
      MarkTriggerExact(sep, del, a, b);
    }
    RunKeeps(MarkTrigger(sep, del), EndEdit, rel, Start(first), terms);
    var s := Run(MarkTrigger(sep, del), Start(first), terms);
    SameMarksSameItems(sep, del, s.computedFor, s.term);
  }

  /**
   * So reused offers never repeat: with repeated keys off, no row on screen at key position has the
   * key of an item before the cursor; with repeated values off, the same at value position.
   */
  lemma {:induction false} ReusedOffersDoNotRepeat(cfg: ListConfig, rows: seq<Row>, first: string, terms: seq<string>)
    requires Edits(EndEdit, first, terms)
    ensures var s := Run(MarkTrigger(cfg.separator, cfg.delimiter), Start(first), terms);
      forall item, row :: item in Committed(cfg.delimiter, s.term) && row in ListOffered(cfg, rows, s.computedFor) ==>
        NoRepeat(cfg, AtKey(cfg.separator, cfg.delimiter, s.term), item, row)
  {
    ReuseKeepsMarks(cfg.separator, cfg.delimiter, first, terms);
    var s := Run(MarkTrigger(cfg.separator, cfg.delimiter), Start(first), terms);
    forall item, row | item in Committed(cfg.delimiter, s.term) && row in ListOffered(cfg, rows, s.computedFor)
      ensures NoRepeat(cfg, AtKey(cfg.separator, cfg.delimiter, s.term), item, row)
    {
      OffersDoNotRepeat(cfg, rows, s.computedFor, item, row);
    }
  }

  /** The row does not have the key of the item at key position, nor its value at value position. */
  predicate NoRepeat(cfg: ListConfig, isKey: bool, item: string, row: Row) {
    if isKey then cfg.allowRepeatedKeys || !IsUsed([KeyOf(cfg.separator)(item)], row)
    else cfg.allowRepeatedValues || !IsUsed([ValueOf(cfg.separator)(item)], row)
  }

  lemma {:induction false} OffersDoNotRepeat(cfg: ListConfig, rows: seq<Row>, term: string, item: string, row: Row)
    requires item in Committed(cfg.delimiter, term) && row in ListOffered(cfg, rows, term)
    ensures NoRepeat(cfg, AtKey(cfg.separator, cfg.delimiter, term), item, row)
  {
    var items, isKey := Split(term, cfg.delimiter), AtKey(cfg.separator, cfg.delimiter, term);
    var part := if isKey then KeyOf(cfg.separator) else ValueOf(cfg.separator);
    assert item in items;
    MapMember(items, part, item);
    if !(if isKey then cfg.allowRepeatedKeys else cfg.allowRepeatedValues) {
      UnusedEach(Map(items, part), part(item), row);
    }
  }

  lemma {:induction false} MapMember(items: seq<string>, f: string -> string, item: string)
    requires item in items
    ensures f(item) in Map(items, f)
  {
  }

  /** The same mode and the same earlier items: what the offers depend on besides the text being typed. */
  predicate SameView(sep: char, del: char, a: string, b: string) {
    AtKey(sep, del, a) == AtKey(sep, del, b) && Committed(del, a) == Committed(del, b)
  }

  lemma {:induction false} QuietMarksIff(sep: char, del: char, a: string, b: string)
    requires LastMark(sep, del, a) == LastMark(sep, del, b)
    ensures SameMarks(sep, del, a, b) <==> ThroughMark(sep, del, a) <= b
  {
  }

  lemma {:induction false} QuietViewIff(sep: char, del: char, a: string, b: string)
    requires LastMark(sep, del, a) == LastMark(sep, del, b)
    ensures SameView(sep, del, a, b) <==> Through(a, del) == Through(b, del)
  {
    CommittedIff(del, a, b);
    var y := LastMark(sep, del, a);
    if y >= 0 {
      assert a[y..y + 1] == [a[y]] && b[y..y + 1] == [b[y]];
    }
  }

  /**
   * One arbitrary edit of a token whose rows are right: the text through the last mark is still the
   * computed one exactly when the edit triggers or keeps that text.
   */
  lemma {:induction false} AdvanceMarksExact(sep: char, del: char, s: Session, next: string)
    requires SameMarks(sep, del, s.computedFor, s.term)
    ensures var r := Advance(MarkTrigger(sep, del), s, next);
      SameMarks(sep, del, r.computedFor, r.term) <==>
        MarkTrigger(sep, del)(next, s.term) || ThroughMark(sep, del, s.term) <= next
  {
    if !MarkTrigger(sep, del)(next, s.term) {
      QuietMarksIff(sep, del, s.term, next);
    }
  }

  /** The same for what the user sees, the mode and the earlier items. */
  lemma {:induction false} AdvanceViewExact(sep: char, del: char, s: Session, next: string)
    requires SameView(sep, del, s.computedFor, s.term)
    ensures var r := Advance(MarkTrigger(sep, del), s, next);
      SameView(sep, del, r.computedFor, r.term) <==>
        MarkTrigger(sep, del)(next, s.term) || Through(s.term, del) == Through(next, del)
  {
    if !MarkTrigger(sep, del)(next, s.term) {
      QuietViewIff(sep, del, s.term, next);
    }
  }

  function MarksRelation(sep: char, del: char): (rel: (string, string) -> bool) {
    (a: string, b: string) => SameMarks(sep, del, a, b)
  }

  function ViewRelation(sep: char, del: char): (rel: (string, string) -> bool) {
    (a: string, b: string) => SameView(sep, del, a, b)
  }

  function SafeForMarks(sep: char, del: char): (allowed: (string, string) -> bool) {
    (old_: string, new_: string) => MarkTrigger(sep, del)(new_, old_) || ThroughMark(sep, del, old_) <= new_
  }

  function SafeForView(sep: char, del: char): (allowed: (string, string) -> bool) {
    (old_: string, new_: string) => MarkTrigger(sep, del)(new_, old_) || Through(old_, del) == Through(new_, del)
  }

  /** Throughout a run of arbitrary edits, exactly the edits that are safe one by one are safe together. */
  lemma {:induction false} RunMarksExact(sep: char, del: char, first: string, terms: seq<string>)
    ensures Always(MarkTrigger(sep, del), MarksRelation(sep, del), Start(first), terms)
       <==> Edits(SafeForMarks(sep, del), first, terms)
  {
    var trigger, rel, allowed := MarkTrigger(sep, del), MarksRelation(sep, del), SafeForMarks(sep, del);
    forall a, b
      ensures allowed(a, b) <==> Harmless(trigger, rel)(a, b)
    {
      if !trigger(b, a) {
        QuietMarksIff(sep, del, a, b);
      }
    }
    AlwaysIff(trigger, rel, allowed, Start(first), terms);
  }

  lemma {:induction false} RunViewExact(sep: char, del: char, first: string, terms: seq<string>)
    ensures Always(MarkTrigger(sep, del), ViewRelation(sep, del), Start(first), terms)
       <==> Edits(SafeForView(sep, del), first, terms)
  {
    var trigger, rel, allowed := MarkTrigger(sep, del), ViewRelation(sep, del), SafeForView(sep, del);
    forall a, b
      ensures allowed(a, b) <==> Harmless(trigger, rel)(a, b)
    {
      if !trigger(b, a) {
        QuietViewIff(sep, del, a, b);
      }
    }
    AlwaysIff(trigger, rel, allowed, Start(first), terms);
  }

  /**
   * After any run of arbitrary edits the last marks are in the same place, so whether the rows are
   * for the current mode and items can be read off the computed and the current token.
   */
  lemma {:induction false} ListReuseIff(sep: char, del: char, first: string, terms: seq<string>)
    ensures var s := Run(MarkTrigger(sep, del), Start(first), terms);
      && LastMark(sep, del, s.computedFor) == LastMark(sep, del, s.term)
      && (SameMarks(sep, del, s.computedFor, s.term) <==> ThroughMark(sep, del, s.computedFor) <= s.term)
      && (SameView(sep, del, s.computedFor, s.term) <==> Through(s.computedFor, del) == Through(s.term, del))
  {
    var rel := (a: string, b: string) => LastMark(sep, del, a) == LastMark(sep, del, b);
    AnyRun(first, terms);
    RunKeeps(MarkTrigger(sep, del), AnyEdit, rel, Start(first), terms);
    var s := Run(MarkTrigger(sep, del), Start(first), terms);
    QuietMarksIff(sep, del, s.computedFor, s.term);
    QuietViewIff(sep, del, s.computedFor, s.term);
  }

  /** Edits inside the token are not covered: replacing the separator by the delimiter never triggers. */
  lemma {:induction false} InnerEditIsStale(sep: char, del: char)
    requires sep != del
    ensures var s := Run(MarkTrigger(sep, del), Start([sep]), [[del]]);
      s == Session([del], [sep]) && AtKey(sep, del, s.term) && !AtKey(sep, del, s.computedFor)
  {
  }

  /** An unfinished key hides the key it is one character longer than, although no pair has that key. */
  lemma {:induction false} LongerKeyHidesKey(cfg: ListConfig, before: seq<Call>, key: string, c: char)
    requires cfg.separator != cfg.delimiter && !cfg.allowRepeatedKeys && cfg.keys.content == Strings([key])
    requires cfg.separator !in key + [c] && cfg.delimiter !in key + [c]
    ensures ListOffers(cfg, before, key + [c]) == []
    ensures key != "" ==> |ListOffers(cfg, before, "")| == 1
  {
    var none: seq<Pair> := [];
    assert DropLast(key + [c]) == key && KeysOf(none) + [key] == [key] && KeysOf(none) + [""] == [""];
    assert Print(cfg.separator, cfg.delimiter, none) == "" && "" + (key + [c]) == key + [c] && "" + "" == "";
    OfferedKeysExact(cfg, [key], before, none, key + [c]);
    OfferedKeysExact(cfg, [key], before, none, "");
    FilterOne(key, NotIn([key]));
    FilterOne(key, NotIn([""]));
  }

  /**
   * How far reused key offers can be from recomputed ones, whatever was requested before them and
   * since: two partial keys after the same pairs give the same offers exactly when they agree up to
   * their last character, or neither one, so shortened, is a key still available.
   */
  lemma {:induction false} ReusedKeysExact(cfg: ListConfig, names: seq<string>, before: seq<Call>, since: seq<Call>,
      ps: seq<Pair>, k: string, k': string)
    requires cfg.separator != cfg.delimiter && !cfg.allowRepeatedKeys && cfg.keys.content == Strings(names)
    requires AllClean(cfg.separator, cfg.delimiter, ps)
    requires cfg.separator !in k && cfg.delimiter !in k && cfg.separator !in k' && cfg.delimiter !in k'
    ensures var front := Print(cfg.separator, cfg.delimiter, ps);
      var free := Filter(names, NotIn(KeysOf(ps)));
      var now := before + [ListRequest(cfg, front + k, [])] + since;
      ListOffers(cfg, before, front + k) == ListOffers(cfg, now, front + k') <==>
        DropLast(k) == DropLast(k') || (DropLast(k) !in free && DropLast(k') !in free)
  {
    var front := Print(cfg.separator, cfg.delimiter, ps);
    var c := ListRequest(cfg, front + k, []);
    PartialKeyRoundTrip(cfg.separator, cfg.delimiter, ps, k);
    SuffixStays(before, c, since);
    OfferedKeysExact(cfg, names, before, ps, k);
    OfferedKeysExact(cfg, names, before + [c] + since, ps, k');
    FreeNamesAgreeIff(names, KeysOf(ps), DropLast(k), DropLast(k'));
    PlainRowsInjective(SuffixInForce(before, cfg.keys, KeySuffix(cfg)),
                       Filter(names, NotIn(KeysOf(ps) + [DropLast(k)])),
                       Filter(names, NotIn(KeysOf(ps) + [DropLast(k')])));
  }

  /** The same for values: two unfinished ones give the same offers if equal, or if neither is still available. */
  lemma {:induction false} ReusedValuesExact(cfg: ListConfig, names: seq<string>, before: seq<Call>, since: seq<Call>,
      ps: seq<Pair>, key: string, v: string, v': string)
    requires cfg.separator != cfg.delimiter && !cfg.allowRepeatedValues && cfg.values.content == Strings(names)
    requires AllClean(cfg.separator, cfg.delimiter, ps + [Pair(key, v)]) && cfg.separator !in v
    requires cfg.delimiter !in v' && cfg.separator !in v'
    ensures var front := Print(cfg.separator, cfg.delimiter, ps);
      var term, term' := front + (key + [cfg.separator] + v), front + (key + [cfg.separator] + v');
      var free := Filter(names, NotIn(ValuesOf(ps)));
      var now := before + [ListRequest(cfg, term, [])] + since;
      ListOffers(cfg, before, term) == ListOffers(cfg, now, term') <==> v == v' || (v !in free && v' !in free)
  {
    var front := Print(cfg.separator, cfg.delimiter, ps);
    var term := front + (key + [cfg.separator] + v);
    var c := ListRequest(cfg, term, []);
    SameKeyIsClean(cfg.separator, cfg.delimiter, ps, key, v, v');
    PartialValueRoundTrip(cfg.separator, cfg.delimiter, ps, key, v);
    SuffixStays(before, c, since);
    OfferedValuesExact(cfg, names, before, ps, key, v);
    OfferedValuesExact(cfg, names, before + [c] + since, ps, key, v');
    FreeNamesAgreeIff(names, ValuesOf(ps), v, v');
    PlainRowsInjective(SuffixInForce(before, cfg.values, ValueSuffix(cfg)),
                       Filter(names, NotIn(ValuesOf(ps) + [v])), Filter(names, NotIn(ValuesOf(ps) + [v'])));
  }

  lemma {:induction false} SameKeyIsClean(sep: char, del: char, ps: seq<Pair>, key: string, v: string, v': string)
    requires AllClean(sep, del, ps + [Pair(key, v)]) && del !in v'
    ensures AllClean(sep, del, ps + [Pair(key, v')])
  {
    assert Pair(key, v) in ps + [Pair(key, v)];
    forall p | p in ps + [Pair(key, v')]
      ensures Clean(sep, del, p)
    {
      assert p != Pair(key, v') ==> p in ps + [Pair(key, v)];
    }
  }

  // ----- one generator and the cache

  function RequestFor(cfg: ListConfig): (f: string -> Call) {
    (term: string) => ListRequest(cfg, term, [])
  }

  function Requests(cfg: ListConfig, terms: seq<string>): (r: seq<Call>) {
    Map(terms, RequestFor(cfg))
  }

  ghost predicate CacheInvisible(cfg: ListConfig, terms: seq<string>) {
    Answers(map[], Requests(cfg, terms)) == Map(Requests(cfg, terms), Fresh)
  }

  /**
   * A generator over two arrays sees what it would see without the cache, whatever tokens it is
   * asked about, exactly when the arrays are distinct objects, or both halves use the same suffix,
   * or the elements of the shared array all say what to insert.
   */
  lemma {:induction false} CacheInvisibleIff(cfg: ListConfig)
    requires cfg.separator != cfg.delimiter
    requires !cfg.keys.content.Computed? && !cfg.values.content.Computed?
    ensures (forall terms :: CacheInvisible(cfg, terms)) <==> SafeForCache(cfg)
  {
    if SafeForCache(cfg) {
      forall terms: seq<string>
        ensures CacheInvisible(cfg, terms)
      {
        SafeIsInvisible(cfg, terms);
      }
    } else {
      SharedIsVisible(cfg);
    }
  }

  ghost predicate SafeForCache(cfg: ListConfig) {
    || cfg.keys != cfg.values
    || KeySuffix(cfg) == ValueSuffix(cfg)
    || forall r :: r in SourceRows(ListRequest(cfg, "", [])) ==> HasInsert(r)
  }

  lemma {:induction false} SafeIsInvisible(cfg: ListConfig, terms: seq<string>)
    requires !cfg.keys.content.Computed? && !cfg.values.content.Computed? && SafeForCache(cfg)
    ensures CacheInvisible(cfg, terms)
  {
    var calls := Requests(cfg, terms);
    forall i | 0 <= i < |calls|
      ensures Answers(map[], calls)[i] == Map(calls, Fresh)[i]
    {
      ArrayAnswerExact(calls, i);
      var j := FirstUse(calls, calls[i].source);
      SameSourceSameSuffix(cfg, terms[i], terms[j]);
    }
  }

  lemma {:induction false} SameSourceSameSuffix(cfg: ListConfig, t: string, u: string)
    requires SafeForCache(cfg) && ListRequest(cfg, t, []).source == ListRequest(cfg, u, []).source
    ensures
      || ListRequest(cfg, u, []).suffix == ListRequest(cfg, t, []).suffix
      || forall r :: r in SourceRows(ListRequest(cfg, t, [])) ==> HasInsert(r)
  {
  }

  /** A key position and then a value position: the second answer still has the key suffix. */
  lemma {:induction false} SharedIsVisible(cfg: ListConfig)
    requires cfg.separator != cfg.delimiter
    requires !cfg.keys.content.Computed? && !SafeForCache(cfg)
    ensures !CacheInvisible(cfg, ["", [cfg.separator]])
  {
    var terms := ["", [cfg.separator]];
    var calls := Requests(cfg, terms);
    SeparatorIsValue(cfg.separator, cfg.delimiter);
    assert calls[0] == ListRequest(cfg, "", []) && calls[1] == ListRequest(cfg, [cfg.separator], []);
    ArrayAnswerExact(calls, 1);
    assert Answers(map[], calls)[1] != Map(calls, Fresh)[1];
  }

  lemma {:induction false} SeparatorIsValue(sep: char, del: char)
    ensures !AtKey(sep, del, [sep]) && AtKey(sep, del, "")
  {
    AfterSeparator(sep, del, "", "", "");
    assert "" + ("" + [sep] + "") == [sep];
  }
}

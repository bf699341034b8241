/** `keyValue`: a token that is one key, a one-character separator and a value. */
module KeyValues {
  import opened Seqs
  import opened Js
  import opened Sessions
  import opened Suggestions
  import opened SuggestionCache

  /** The `cache` option: on or off, or the name of the only half to cache. */
  datatype CacheMode = Flag(on: bool) | Half(name: string)

  function UseCache(isKey: bool, mode: CacheMode): (r: bool) {
    match mode
    case Flag(on) => on
    case Half(name) => (isKey && name == "keys") || (!isKey && name == "values")
  }

  datatype Config = Config(separator: char, keys: Source, values: Source, cache: CacheMode, insertSeparator: bool)

  function KeyValueTrigger(sep: char): (t: Trigger) {
    (new_: string, old_: string) => IndexOf(new_, sep) != IndexOf(old_, sep)
  }

  function KeyValueQuery(sep: char, term: string): (r: string) {
    term[IndexOf(term, sep) + 1..]
  }

  /** The token has no separator yet: a key is being typed. */
  predicate TypingKey(sep: char, term: string) {
    sep !in term
  }

  function Request(cfg: Config, term: string, produced: seq<Row>): (c: Call) {
    var isKey := TypingKey(cfg.separator, term);
    Call(if isKey then cfg.keys else cfg.values,
         if isKey && cfg.insertSeparator then [cfg.separator] else "",
         UseCache(isKey, cfg.cache),
         produced)
  }

  method Custom(cache: Cache, cfg: Config, term: string, produced: seq<Row>) returns (rows: seq<Row>)
    modifies cache
    ensures var c := Request(cfg, term, produced);
      rows == Answer(old(cache.entries), c) && cache.entries == Next(old(cache.entries), c)
  {
    var isKey := TypingKey(cfg.separator, term);
    rows := cache.Fetch(if isKey then cfg.keys else cfg.values,
                        if isKey && cfg.insertSeparator then [cfg.separator] else "",
                        UseCache(isKey, cfg.cache), produced);
  }

  // ----- what a run of requests is answered

  /** One request of a run: the token, and what a function source answers if it is called for it. */
  datatype Turn = Turn(term: string, produced: seq<Row>)

  function AskFor(cfg: Config): (f: Turn -> Call) {
    (t: Turn) => Request(cfg, t.term, t.produced)
  }

  function Asked(cfg: Config, turns: seq<Turn>): (calls: seq<Call>) {
    Map(turns, AskFor(cfg))
  }

  /** The first turn whose token is in the given half. */
  function FirstTurn(sep: char, isKey: bool, turns: seq<Turn>): (j: nat)
    ensures j <= |turns|
    ensures j < |turns| ==> TypingKey(sep, turns[j].term) == isKey
    ensures forall k :: 0 <= k < j ==> TypingKey(sep, turns[k].term) != isKey
  {
    if turns == [] || TypingKey(sep, turns[0].term) == isKey then 0 else 1 + FirstTurn(sep, isKey, turns[1..])
  }

  /** The rows of one half: keys with the separator when configured, values as they are. */
  function HalfRows(cfg: Config, isKey: bool, produced: seq<Row>): (r: seq<Row>) {
    if isKey then AddSuffix(if cfg.insertSeparator then [cfg.separator] else "", RowsOf(cfg.keys, produced))
    else RowsOf(cfg.values, produced)
  }

  lemma {:induction false} FirstOfHalf(cfg: Config, turns: seq<Turn>, i: nat)
    requires i < |turns|
    requires var c := AskFor(cfg)(turns[i]); c.useCache && c.source.content.Computed?
    requires cfg.keys != cfg.values || cfg.cache.Half?
    ensures FirstUse(Asked(cfg, turns), AskFor(cfg)(turns[i]).source)
         == FirstTurn(cfg.separator, TypingKey(cfg.separator, turns[i].term), turns)
  {
    var source, isKey := AskFor(cfg)(turns[i]).source, TypingKey(cfg.separator, turns[i].term);
    var calls := Asked(cfg, turns);
    assert forall k :: 0 <= k < |turns| ==>
      ((Cacheable(calls[k]) && calls[k].source == source) <==> TypingKey(cfg.separator, turns[k].term) == isKey);
    var a, b := FirstUse(calls, source), FirstTurn(cfg.separator, isKey, turns);
    assert a <= i && b <= i;
  }

  /** One object serves both halves, and requests for either go through the cache. */
  predicate SharedAndCached(cfg: Config) {
    cfg.keys == cfg.values && (!cfg.keys.content.Computed? || cfg.cache == Flag(true))
  }

  /**
   * Over every sequence of requests: a cached half repeats its first answer and an uncached one answers
   * afresh; when one object serves both halves and both are cached, the first answer of all is repeated.
   */
  lemma {:induction false} HalvesOverRuns(cfg: Config, turns: seq<Turn>, i: nat)
    requires i < |turns|
    ensures var isKey := TypingKey(cfg.separator, turns[i].term);
      var j := if UseCache(isKey, cfg.cache) then FirstTurn(cfg.separator, isKey, turns) else i;
      && j <= i
      && Answers(map[], Asked(cfg, turns))[i] ==
         if SharedAndCached(cfg) then HalfRows(cfg, TypingKey(cfg.separator, turns[0].term), turns[0].produced)
         else HalfRows(cfg, isKey, turns[j].produced)
  {
    var calls := Asked(cfg, turns);
    AnswersExact(calls, i);
    if SharedAndCached(cfg) {
      assert Cacheable(calls[0]) && calls[0].source == calls[i].source;
    } else if calls[i].source.content.Computed? {
      if calls[i].useCache {
        FirstOfHalf(cfg, turns, i);
      }
    } else {
      StaticHalf(cfg, turns, i, FirstUse(calls, calls[i].source));
    }
  }

  lemma {:induction false} StaticHalf(cfg: Config, turns: seq<Turn>, i: nat, j: nat)
    requires i < |turns| && j < |turns| && cfg.keys != cfg.values
    requires !Asked(cfg, turns)[i].source.content.Computed?
    requires Asked(cfg, turns)[j].source == Asked(cfg, turns)[i].source
    ensures forall rows :: Fresh(Asked(cfg, turns)[j]) == HalfRows(cfg, TypingKey(cfg.separator, turns[i].term), rows)
  {
  }

  /**
   * Naming a half caches that half and no other: all its requests get what its function produced
   * for the first of them, and each request for the other half what was produced for it. Any other
   * name caches nothing, a flag both halves or neither.
   */
  lemma {:induction false} CachedHalf(cfg: Config, turns: seq<Turn>, i: nat)
    requires i < |turns| && cfg.keys.content.Computed? && cfg.values.content.Computed?
    ensures var isKey := TypingKey(cfg.separator, turns[i].term);
      var answer := Answers(map[], Asked(cfg, turns))[i];
      var first := FirstTurn(cfg.separator, isKey, turns);
      && first <= i
      && (cfg.cache == Half("keys") ==>
           answer == HalfRows(cfg, isKey, turns[if isKey then first else i].produced))
      && (cfg.cache == Half("values") ==>
           answer == HalfRows(cfg, isKey, turns[if isKey then i else first].produced))
      && (cfg.cache == Flag(false) || (cfg.cache.Half? && cfg.cache.name !in {"keys", "values"}) ==>
           answer == HalfRows(cfg, isKey, turns[i].produced))
      && (cfg.cache == Flag(true) && cfg.keys != cfg.values ==>
           answer == HalfRows(cfg, isKey, turns[first].produced))
  {
    HalvesOverRuns(cfg, turns, i);
  }

  /** A rendered token asks for the half being typed and matches on exactly the text typed of it. */
  lemma {:induction false} KeyValueRoundTrip(cfg: Config, key: string, value: string, produced: seq<Row>)
    requires cfg.separator !in key
    ensures KeyValueQuery(cfg.separator, key) == key
    ensures var c := Request(cfg, key, produced);
      c.source == cfg.keys && c.suffix == (if cfg.insertSeparator then [cfg.separator] else "")
    ensures var term := key + [cfg.separator] + value;
      && KeyValueQuery(cfg.separator, term) == value
      && Request(cfg, term, produced).source == cfg.values && Request(cfg, term, produced).suffix == ""
  {
    Absent(key, cfg.separator);
    assert key[0..] == key;
    PrintedValue(cfg.separator, key, value);
  }

  lemma {:induction false} PrintedValue(sep: char, key: string, value: string)
    requires sep !in key
    ensures var term := key + [sep] + value; !TypingKey(sep, term) && KeyValueQuery(sep, term) == value
  {
    var term := key + [sep] + value;
    SeparatorIndex(sep, key, value);
    Absent(term, sep);
    assert term[|key| + 1..] == value;
  }

  /** The trigger sees the separator come, go or move, and nothing else. */
  lemma {:induction false} KeyValueTriggerExact(sep: char, key: string, key': string, v: string, v': string)
    requires sep !in key && sep !in key'
    ensures !KeyValueTrigger(sep)(key', key)
    ensures KeyValueTrigger(sep)(key' + [sep] + v', key) && KeyValueTrigger(sep)(key, key' + [sep] + v')
    ensures KeyValueTrigger(sep)(key' + [sep] + v', key + [sep] + v) <==> |key'| != |key|
  {
    Absent(key, sep);
    Absent(key', sep);
    SeparatorIndex(sep, key, v);
    SeparatorIndex(sep, key', v');
  }

  lemma {:induction false} SeparatorIndex(sep: char, key: string, v: string)
    requires sep !in key
    ensures IndexOf(key + [sep] + v, sep) == |key|
  {
    var term := key + [sep] + v;
    assert term[|key|] == sep && forall j :: 0 <= j < |key| ==> term[j] == key[j];
    IndexOfUnique(term, sep, |key|);
  }

  /** Over every run of arbitrary edits the generator's answer is to the request it would make again. */
  lemma {:induction false} KeyValueReuse(cfg: Config, first: string, terms: seq<string>, produced: seq<Row>)
    ensures var s := Run(KeyValueTrigger(cfg.separator), Start(first), terms);
      Request(cfg, s.computedFor, produced) == Request(cfg, s.term, produced)
  {
    var rel := (a: string, b: string) => IndexOf(a, cfg.separator) == IndexOf(b, cfg.separator);
    AnyRun(first, terms);
    RunKeeps(KeyValueTrigger(cfg.separator), AnyEdit, rel, Start(first), terms);
    var s := Run(KeyValueTrigger(cfg.separator), Start(first), terms);
    Absent(s.computedFor, cfg.separator);
    Absent(s.term, cfg.separator);
  }

  lemma {:induction false} Absent(s: string, c: char)
    ensures IndexOf(s, c) == -1 <==> c !in s
  {
  }
}

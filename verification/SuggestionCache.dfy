/**
 * The module-level cache of suggestion sources. It is keyed by the identity of the source, while
 * what it stores also depends on the suffix of the generator that asked first.
 */
module SuggestionCache {
  import opened Seqs
  import opened Suggestions

  datatype Content = Strings(names: seq<string>) | Objects(rows: seq<Row>) | Computed

  /** A configured source: an array, or a function whose answer is only known when it is called. */
  class Source {
    const content: Content

    constructor (content: Content)
      ensures this.content == content
    {
      this.content := content;
    }
  }

  /** One request; `produced` is what a function source answers if it is called for this request. */
  datatype Call = Call(source: Source, suffix: string, useCache: bool, produced: seq<Row>)

  type Store = map<Source, seq<Row>>

  predicate IsStatic(c: Call) {
    !c.source.content.Computed?
  }

  /** The request goes through the cache: arrays always do. */
  predicate Cacheable(c: Call) {
    c.useCache || IsStatic(c)
  }

  /** The rows of a source as configured, or as its function produced them. */
  function RowsOf(source: Source, produced: seq<Row>): (r: seq<Row>) {
    match source.content
    case Strings(names) => Map(names, PlainRow)
    case Objects(rows) => rows
    case Computed => produced
  }

  function SourceRows(c: Call): (r: seq<Row>) {
    RowsOf(c.source, c.produced)
  }

  /** The uncached computation. */
  function Fresh(c: Call): (r: seq<Row>) {
    AddSuffix(c.suffix, SourceRows(c))
  }

  function Answer(store: Store, c: Call): (r: seq<Row>) {
    if Cacheable(c) && c.source in store then store[c.source] else Fresh(c)
  }

  function Next(store: Store, c: Call): (r: Store) {
    if Cacheable(c) && c.source !in store then store[c.source := Fresh(c)] else store
  }

  /** The answers to a sequence of requests, each one atomic. */
  function Answers(store: Store, calls: seq<Call>): (r: seq<seq<Row>>)
    ensures |r| == |calls|
    decreases |calls|
  {
    if calls == [] then [] else [Answer(store, calls[0])] + Answers(Next(store, calls[0]), calls[1..])
  }

  class Cache {
    var entries: Store

    constructor ()
      ensures entries == map[]
    {
      entries := map[];
    }

    method Fetch(source: Source, suffix: string, useCache: bool, produced: seq<Row>) returns (rows: seq<Row>)
      modifies this
      ensures var c := Call(source, suffix, useCache, produced);
              rows == Answer(old(entries), c) && entries == Next(old(entries), c)
    {
      if useCache || !source.content.Computed? {
        if source in entries {
          rows := entries[source];
        } else {
          rows := Build(source, suffix, produced);
          entries := entries[source := rows];
        }
      } else {
        rows := Build(source, suffix, produced);
      }
    }

    static method Build(source: Source, suffix: string, produced: seq<Row>) returns (rows: seq<Row>)
      ensures forall useCache :: rows == Fresh(Call(source, suffix, useCache, produced))
    {
      match source.content
      case Computed => rows := AddSuffix(suffix, produced);
      case Strings(names) =>
        var plain := Map(names, PlainRow);
        rows := AddSuffix(suffix, plain);
      case Objects(objects) => rows := AddSuffix(suffix, objects);
    }
  }

  /** What the uncached computation gives for each kind of source. */
  lemma {:induction false} FreshExact(c: Call)
    ensures c.suffix == "" && c.source.content.Objects? ==> Fresh(c) == c.source.content.rows
    ensures c.suffix == "" && c.source.content.Computed? ==> Fresh(c) == c.produced
    ensures c.source.content.Strings? ==>
      && |Fresh(c)| == |c.source.content.names|
      && forall i :: 0 <= i < |Fresh(c)| ==>
           var name := c.source.content.names[i];
           Fresh(c)[i] == Row(Single(name), if c.suffix == "" then None else Some(name + c.suffix), map[])
  {
    if c.source.content.Strings? {
      forall i | 0 <= i < |c.source.content.names|
        ensures |Fresh(c)| == |c.source.content.names|
        ensures Fresh(c)[i] == Row(Single(c.source.content.names[i]),
                                   if c.suffix == "" then None else Some(c.source.content.names[i] + c.suffix), map[])
      {
        PlainRowsExact(c.suffix, c.source.content.names, i);
      }
    }
  }

  /** A source nobody has asked for has its own suffix in force. */
  lemma {:induction false} OwnSuffix(calls: seq<Call>, source: Source, own: string)
    requires forall k :: 0 <= k < |calls| ==> calls[k].source != source
    ensures SuffixInForce(calls, source, own) == own
  {
  }

  // ----- atomic requests: the first cacheable request for a source decides all later ones

  /** The index of the first request for `source` that goes through the cache. */
  function FirstUse(calls: seq<Call>, source: Source): (j: nat)
    ensures j <= |calls|
    ensures j < |calls| ==> Cacheable(calls[j]) && calls[j].source == source
    ensures forall k :: 0 <= k < j ==> !(Cacheable(calls[k]) && calls[k].source == source)
  {
    if calls == [] || (Cacheable(calls[0]) && calls[0].source == source) then 0
    else 1 + FirstUse(calls[1..], source)
  }

  lemma {:induction false} AnswersFrom(store: Store, calls: seq<Call>, i: nat)
    requires i < |calls|
    ensures var c := calls[i];
      var j := FirstUse(calls, c.source);
      && (Cacheable(c) ==> j <= i)
      && Answers(store, calls)[i]
         == if !Cacheable(c) then Fresh(c) else if c.source in store then store[c.source] else Fresh(calls[j])
    decreases |calls|
  {
    if i == 0 {
    } else {
      assert calls[1..][i - 1] == calls[i];
      AnswersFrom(Next(store, calls[0]), calls[1..], i - 1);
      assert Answers(store, calls)[i] == Answers(Next(store, calls[0]), calls[1..])[i - 1];
    }
  }

  /**
   * Every answer of every sequence of requests: a cacheable request is answered with the uncached
   * answer to the first cacheable request for the same source, any other with its own.
   */
  lemma {:induction false} AnswersExact(calls: seq<Call>, i: nat)
    requires i < |calls|
    ensures var c := calls[i];
      var j := FirstUse(calls, c.source);
      && (Cacheable(c) ==> j <= i)
      && Answers(map[], calls)[i] == Fresh(if Cacheable(c) then calls[j] else c)
  {
    AnswersFrom(map[], calls, i);
  }

  /**
   * For arrays the cache is invisible exactly when the first generator to ask used the same suffix,
   * or every element already says what to insert.
   */
  lemma {:induction false} ArrayAnswerExact(calls: seq<Call>, i: nat)
    requires i < |calls| && IsStatic(calls[i])
    ensures var c := calls[i];
      var j := FirstUse(calls, c.source);
      && j <= i
      && (Answers(map[], calls)[i] == Fresh(c) <==>
          calls[j].suffix == c.suffix || forall r :: r in SourceRows(c) ==> HasInsert(r))
  {
    AnswersExact(calls, i);
    var j := FirstUse(calls, calls[i].source);
    SuffixesAgreeIff(calls[j].suffix, calls[i].suffix, SourceRows(calls[i]));
  }

  /** Arrays used with one suffix each are answered as if uncached, whatever else a run asks. */
  lemma {:induction false} ConsistentSuffixesRefine(calls: seq<Call>, suffixOf: Source -> string, i: nat)
    requires forall k :: 0 <= k < |calls| && IsStatic(calls[k]) ==> calls[k].suffix == suffixOf(calls[k].source)
    requires i < |calls| && IsStatic(calls[i])
    ensures Answers(map[], calls)[i] == Fresh(calls[i])
  {
    ArrayAnswerExact(calls, i);
    assert IsStatic(calls[FirstUse(calls, calls[i].source)]);
  }

  /** A function source with caching on answers every request with its first result. */
  lemma {:induction false} FunctionAnswersFirst(calls: seq<Call>, i: nat, k: nat)
    requires i < k < |calls|
    requires calls[i].source == calls[k].source && calls[i].useCache && calls[k].useCache
    ensures Answers(map[], calls)[k] == Answers(map[], calls)[i]
  {
    AnswersExact(calls, i);
    AnswersExact(calls, k);
  }

  /** A non-empty array of plain strings shared with two suffixes keeps the first for both. */
  lemma {:induction false} SharedArrayKeepsFirstSuffix(source: Source, s: string, t: string, x: Call, y: Call)
    requires source.content.Strings? && source.content.names != [] && s != t
    requires x == Call(source, s, x.useCache, x.produced) && y == Call(source, t, y.useCache, y.produced)
    ensures Answers(map[], [x, y]) == [Fresh(x), Fresh(x)]
    ensures Fresh(x) != Fresh(y)
  {
    AnswersExact([x, y], 0);
    AnswersExact([x, y], 1);
    assert [x, y][0] == x && [x, y][1] == y;
    var rows := SourceRows(x);
    assert !HasInsert(rows[0]) && rows[0] in rows;
    SuffixesAgreeIff(s, t, rows);
  }

  // ----- one request after any others

  /** What the cache holds after a sequence of requests. */
  function Stored(calls: seq<Call>): (r: Store) {
    if calls == [] then map[] else Next(Stored(calls[..|calls| - 1]), calls[|calls| - 1])
  }

  /** The suffix a source's rows have: that of the first request for it through the cache. */
  function SuffixInForce(calls: seq<Call>, source: Source, own: string): (r: string) {
    var j := FirstUse(calls, source);
    if j < |calls| then calls[j].suffix else own
  }

  lemma {:induction false} StoredExact(calls: seq<Call>, source: Source)
    ensures var j := FirstUse(calls, source);
      && (source in Stored(calls) <==> j < |calls|)
      && (j < |calls| ==> Stored(calls)[source] == Fresh(calls[j]))
    decreases |calls|
  {
    if calls == [] {
    } else {
      var init := calls[..|calls| - 1];
      StoredExact(init, source);
      FirstUseInit(calls, source);
    }
  }

  lemma {:induction false} FirstUseInit(calls: seq<Call>, source: Source)
    requires calls != []
    ensures var init, j := calls[..|calls| - 1], FirstUse(calls[..|calls| - 1], source);
      FirstUse(calls, source) ==
        if j < |init| || (Cacheable(calls[j]) && calls[j].source == source) then j else |calls|
  {
    var init, j, k := calls[..|calls| - 1], FirstUse(calls[..|calls| - 1], source), FirstUse(calls, source);
    assert forall i :: 0 <= i < |init| ==> calls[i] == init[i];
  }

  /** After any requests, an array is answered with its rows under the suffix in force. */
  lemma {:induction false} AnswerInForce(calls: seq<Call>, c: Call)
    requires IsStatic(c)
    ensures Answer(Stored(calls), c) == AddSuffix(SuffixInForce(calls, c.source, c.suffix), SourceRows(c))
  {
    StoredExact(calls, c.source);
  }

  /** Once a request has gone through the cache, no later one changes the suffix in force. */
  lemma {:induction false} SuffixStays(before: seq<Call>, c: Call, later: seq<Call>)
    requires Cacheable(c)
    ensures SuffixInForce(before + [c] + later, c.source, c.suffix) == SuffixInForce(before, c.source, c.suffix)
  {
    var all := before + [c] + later;
    var i, j := FirstUse(before, c.source), FirstUse(all, c.source);
    assert all[|before|] == c;
    assert forall k :: 0 <= k < |before| ==> all[k] == before[k];
  }

  /** Every generator's suffix is empty or one mark. */
  ghost predicate OneMark(calls: seq<Call>) {
    forall k :: 0 <= k < |calls| ==> |calls[k].suffix| <= 1
  }
}

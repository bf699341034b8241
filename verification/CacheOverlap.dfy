/**
 * The cache under overlapping requests. A request that misses awaits its computation and stores the
 * result when it is done, so other requests can begin, and miss, in between.
 */
module CacheOverlap {
  import opened Seqs
  import opened Suggestions
  import opened SuggestionCache

  /** Requests are numbered. */
  datatype Event = Begin(id: nat, call: Call) | Finish(id: nat)

  /** `pending` requests have missed and are still being computed. */
  datatype World = World(
    store: Store,
    calls: map<nat, Call>,
    pending: set<nat>,
    answers: map<nat, seq<Row>>)

  const IDLE := World(map[], map[], {}, map[])

  function Step(w: World, e: Event): (r: World) {
    match e
    case Begin(id, c) =>
      if id in w.calls then w
      else if Cacheable(c) && c.source in w.store then
        w.(calls := w.calls[id := c], answers := w.answers[id := w.store[c.source]])
      else w.(calls := w.calls[id := c], pending := w.pending + {id})
    case Finish(id) =>
      if id !in w.pending || id !in w.calls then w
      else
        var c := w.calls[id];
        w.(pending := w.pending - {id},
           answers := w.answers[id := Fresh(c)],
           store := if Cacheable(c) then w.store[c.source := Fresh(c)] else w.store)
  }

  /** A whole run of events. */
  function Play(events: seq<Event>): (w: World) {
    if events == [] then IDLE else Step(Play(Init(events)), Last(events))
  }

  function Init<T>(xs: seq<T>): (r: seq<T>)
    requires xs != []
  {
    xs[..|xs| - 1]
  }

  function Last<T>(xs: seq<T>): (x: T)
    requires xs != []
  {
    xs[|xs| - 1]
  }

  /** The request goes through the cache under `source`. */
  predicate Uses(c: Call, source: Source) {
    Cacheable(c) && c.source == source
  }

  // ----- what a run says about a source and about a request

  /** The last request through the cache for `source` to finish, in time order. */
  function LastFinished(events: seq<Event>, source: Source): (c: Option<Call>) {
    if events == [] then None
    else
      var w, e := Play(Init(events)), Last(events);
      if e.Finish? && e.id in w.pending && e.id in w.calls && Uses(w.calls[e.id], source)
      then Some(w.calls[e.id])
      else LastFinished(Init(events), source)
  }

  /** The position of the event that begins request `id`. */
  function BeginOf(events: seq<Event>, id: nat): (k: nat)
    ensures k <= |events|
    ensures k < |events| ==> events[k].Begin? && events[k].id == id
    ensures forall j :: 0 <= j < k ==> !(events[j].Begin? && events[j].id == id)
  {
    if events == [] || (events[0].Begin? && events[0].id == id) then 0 else 1 + BeginOf(events[1..], id)
  }

  /** The answer a request gets: the last result stored before it began, or else its own. */
  function ExpectedAnswer(before: seq<Event>, c: Call): (rows: seq<Row>) {
    var f := LastFinished(before, c.source);
    if Cacheable(c) && f.Some? then Fresh(f.value) else Fresh(c)
  }

  predicate Hits(before: seq<Event>, c: Call) {
    Cacheable(c) && LastFinished(before, c.source).Some?
  }

  predicate IsAnswered(w: World, id: nat, source: Source) {
    id in w.answers && id in w.calls && Uses(w.calls[id], source)
  }

  /** The request is answered with its own result: it went through the cache and missed. */
  predicate WasComputed(events: seq<Event>, id: nat, source: Source) {
    IsAnswered(Play(events), id, source) && LastFinished(events[..BeginOf(events, id)], source).None?
  }

  lemma {:induction false} StoreExact(events: seq<Event>, source: Source)
    ensures var w, f := Play(events), LastFinished(events, source);
      && (source in w.store <==> f.Some?)
      && (f.Some? ==> w.store[source] == Fresh(f.value) && Uses(f.value, source))
    decreases |events|
  {
    if events == [] {
    } else {
      StoreExact(Init(events), source);
    }
  }

  lemma {:induction false} BeginOfInit(events: seq<Event>, id: nat)
    requires events != [] && BeginOf(Init(events), id) < |Init(events)|
    ensures BeginOf(events, id) == BeginOf(Init(events), id)
    ensures events[..BeginOf(events, id)] == Init(events)[..BeginOf(events, id)]
  {
    var k, j := BeginOf(Init(events), id), BeginOf(events, id);
    assert events[k] == Init(events)[k];
    assert j < |events| - 1 ==> events[j] == Init(events)[j];
  }

  lemma {:induction false} BegunIff(events: seq<Event>, id: nat)
    ensures id in Play(events).calls <==> BeginOf(events, id) < |events|
    decreases |events|
  {
    if events == [] {
    } else {
      var h := Init(events);
      BegunIff(h, id);
      if BeginOf(h, id) < |h| {
        BeginOfInit(events, id);
      } else {
        assert forall j :: 0 <= j < |h| ==> events[j] == h[j];
      }
    }
  }

  /** Where a begun request stands: still pending after a miss, or answered as expected. */
  lemma {:induction false} RequestExact(events: seq<Event>, id: nat)
    requires id in Play(events).calls
    ensures var w, k := Play(events), BeginOf(events, id);
      && k < |events| && events[k] == Begin(id, w.calls[id])
      && (id in w.pending <==> id !in w.answers)
      && (id in w.pending ==> !Hits(events[..k], w.calls[id]))
      && (id in w.answers ==> w.answers[id] == ExpectedAnswer(events[..k], w.calls[id]))
    decreases |events|
  {
    var h, e := Init(events), Last(events);
    var w := Play(h);
    BegunIff(events, id);
    BegunIff(h, id);
    if id in w.calls {
      RequestExact(h, id);
      BeginOfInit(events, id);
    } else {
      assert e == Begin(id, e.call);
      assert events[BeginOf(events, id)].Begin?;
      assert forall j :: 0 <= j < |h| ==> events[j] == h[j];
      assert BeginOf(events, id) == |h| && events[..|h|] == h;
      StoreExact(h, e.call.source);
      NotBegun(h, id);
    }
  }

  lemma {:induction false} NotBegun(events: seq<Event>, id: nat)
    requires id !in Play(events).calls
    ensures id !in Play(events).pending && id !in Play(events).answers
    decreases |events|
  {
    if events == [] {
    } else {
      NotBegun(Init(events), id);
    }
  }

  /**
   * Every answer of every interleaving: a request through the cache gets the uncached answer to the
   * last one for its source that finished before it began; with none finished, and always when it
   * does not go through the cache, its own.
   */
  lemma {:induction false} OverlapAnswersExact(events: seq<Event>, id: nat)
    requires id in Play(events).answers
    ensures var w, k := Play(events), BeginOf(events, id);
      && id in w.calls && k < |events| && events[k] == Begin(id, w.calls[id])
      && w.answers[id] == ExpectedAnswer(events[..k], w.calls[id])
  {
    if id !in Play(events).calls {
      NotBegun(events, id);
      assert false;
    }
    RequestExact(events, id);
  }

  /** The last request to finish was computed for itself. */
  lemma {:induction false} FinishedWasComputed(events: seq<Event>, source: Source) returns (id: nat)
    requires LastFinished(events, source).Some?
    ensures WasComputed(events, id, source) && Play(events).calls[id] == LastFinished(events, source).value
    decreases |events|
  {
    var h, e := Init(events), Last(events);
    var w := Play(h);
    if e.Finish? && e.id in w.pending && e.id in w.calls && Uses(w.calls[e.id], source) {
      id := e.id;
      RequestExact(h, id);
      BeginOfInit(events, id);
    } else {
      id := FinishedWasComputed(h, source);
      BegunIff(h, id);
      BeginOfInit(events, id);
    }
  }

  lemma {:induction false} ComputedStays(events: seq<Event>, k: nat, id: nat, source: Source)
    requires k <= |events| && WasComputed(events[..k], id, source)
    ensures WasComputed(events, id, source) && Play(events).calls[id] == Play(events[..k]).calls[id]
    decreases |events|
  {
    if k == |events| {
      assert events[..k] == events;
    } else {
      assert Init(events)[..k] == events[..k];
      ComputedStays(Init(events), k, id, source);
      BegunIff(Init(events), id);
      BeginOfInit(events, id);
    }
  }

  /** So arrays used with one suffix each are answered as if uncached, over every interleaving. */
  lemma {:induction false} OverlapRefines(events: seq<Event>, suffixOf: Source -> string)
    ensures var w := Play(events);
      && w.answers.Keys <= w.calls.Keys
      && ((forall k :: k in w.calls && IsStatic(w.calls[k]) ==> w.calls[k].suffix == suffixOf(w.calls[k].source)) ==>
          (forall id :: id in w.answers && IsStatic(w.calls[id]) ==> w.answers[id] == Fresh(w.calls[id])))
  {
    var w := Play(events);
    forall id | id in w.answers
      ensures id in w.calls
    {
      OverlapAnswersExact(events, id);
    }
    if forall k :: k in w.calls && IsStatic(w.calls[k]) ==> w.calls[k].suffix == suffixOf(w.calls[k].source) {
      forall id | id in w.answers && IsStatic(w.calls[id])
        ensures w.answers[id] == Fresh(w.calls[id])
      {
        OverlapAnswersExact(events, id);
        var k, source := BeginOf(events, id), w.calls[id].source;
        if LastFinished(events[..k], source).Some? {
          StoreExact(events[..k], source);
          var j := FinishedWasComputed(events[..k], source);
          ComputedStays(events, k, j, source);
        }
      }
    }
  }

  // ----- when all answers of a function source agree

  function Retell(results: nat -> seq<Row>): (f: Event -> Event) {
    (e: Event) => if e.Begin? then Begin(e.id, e.call.(produced := results(e.id))) else e
  }

  /** The same schedule, with each request's function producing the given result. */
  function WithResults(events: seq<Event>, results: nat -> seq<Row>): (r: seq<Event>) {
    Map(events, Retell(results))
  }

  /** All answers to requests through the cache for `source` are equal. */
  ghost predicate AnswersAgree(w: World, source: Source) {
    forall i, j :: IsAnswered(w, i, source) && IsAnswered(w, j, source) ==> w.answers[i] == w.answers[j]
  }

  predicate IsPending(w: World, id: nat, source: Source) {
    id in w.pending && id in w.calls && Uses(w.calls[id], source)
  }

  /** A request for `source` begins while another one is being computed. */
  ghost predicate Collides(w: World, e: Event, source: Source) {
    e.Begin? && e.id !in w.calls && Uses(e.call, source) && exists i :: IsPending(w, i, source)
  }

  /** No two requests for `source` overlap. */
  ghost predicate Serial(events: seq<Event>, source: Source) {
    events == [] || (Serial(Init(events), source) && !Collides(Play(Init(events)), Last(events), source))
  }

  /** The two requests differ only in what their function produces. */
  predicate SameCall(c: Call, d: Call) {
    c.source == d.source && c.suffix == d.suffix && c.useCache == d.useCache
  }

  ghost predicate Produces(w: World, results: nat -> seq<Row>) {
    forall id :: id in w.calls ==> w.calls[id].produced == results(id)
  }

  /** The two worlds differ only in rows. */
  ghost predicate SameShape(w: World, v: World) {
    && w.pending == v.pending && w.calls.Keys == v.calls.Keys
    && w.store.Keys == v.store.Keys && w.answers.Keys == v.answers.Keys
    && forall id :: id in w.calls ==> SameCall(w.calls[id], v.calls[id])
  }

  lemma {:induction false} InitWithResults(events: seq<Event>, results: nat -> seq<Row>)
    requires events != []
    ensures WithResults(events, results) != []
    ensures Init(WithResults(events, results)) == WithResults(Init(events), results)
    ensures Last(WithResults(events, results)) == Retell(results)(Last(events))
  {
  }

  lemma {:induction false} ShapeKept(events: seq<Event>, results: nat -> seq<Row>)
    ensures var w, v := Play(events), Play(WithResults(events, results));
      SameShape(w, v) && Produces(v, results)
    decreases |events|
  {
    if events == [] {
    } else {
      ShapeKept(Init(events), results);
      InitWithResults(events, results);
      StepShape(Play(Init(events)), Play(WithResults(Init(events), results)), Last(events), results);
    }
  }

  lemma {:induction false} StepShape(w: World, v: World, e: Event, results: nat -> seq<Row>)
    requires SameShape(w, v) && Produces(v, results)
    ensures SameShape(Step(w, e), Step(v, Retell(results)(e))) && Produces(Step(v, Retell(results)(e)), results)
  {
    match e
    case Begin(id, c) => BeginShape(w, v, id, c, results);
    case Finish(id) => FinishShape(w, v, id, results);
  }

  lemma {:induction false} BeginShape(w: World, v: World, id: nat, c: Call, results: nat -> seq<Row>)
    requires SameShape(w, v) && Produces(v, results)
    ensures var d := c.(produced := results(id));
      SameShape(Step(w, Begin(id, c)), Step(v, Begin(id, d))) && Produces(Step(v, Begin(id, d)), results)
  {
    var d := c.(produced := results(id));
    assert Cacheable(c) == Cacheable(d);
  }

  lemma {:induction false} FinishShape(w: World, v: World, id: nat, results: nat -> seq<Row>)
    requires SameShape(w, v) && Produces(v, results)
    ensures SameShape(Step(w, Finish(id)), Step(v, Finish(id))) && Produces(Step(v, Finish(id)), results)
  {
    if id in w.pending && id in w.calls {
      assert SameCall(w.calls[id], v.calls[id]);
      assert Cacheable(w.calls[id]) == Cacheable(v.calls[id]);
    }
  }

  lemma {:induction false} SerialKept(events: seq<Event>, results: nat -> seq<Row>, source: Source)
    ensures Serial(events, source) <==> Serial(WithResults(events, results), source)
    decreases |events|
  {
    if events == [] {
    } else {
      var h := Init(events);
      InitWithResults(events, results);
      SerialKept(h, results, source);
      ShapeKept(h, results);
      PendingKept(Play(h), Play(WithResults(h, results)), source);
    }
  }

  lemma {:induction false} PendingKept(w: World, v: World, source: Source)
    requires SameShape(w, v)
    ensures forall i :: IsPending(w, i, source) <==> IsPending(v, i, source)
  {
    forall i
      ensures IsPending(w, i, source) <==> IsPending(v, i, source)
    {
      if i in w.calls {
        assert SameCall(w.calls[i], v.calls[i]);
      }
    }
  }

  /** Without overlap: either one computation is under way and nothing answered, or one result answers all. */
  ghost predicate OneResult(w: World, source: Source) {
    if source in w.store then
      && (forall i :: !IsPending(w, i, source))
      && (forall i :: IsAnswered(w, i, source) ==> w.answers[i] == w.store[source])
    else
      && (forall i :: i in w.calls && Uses(w.calls[i], source) ==> i in w.pending && i !in w.answers)
      && (forall i, j :: IsPending(w, i, source) && IsPending(w, j, source) ==> i == j)
  }

  lemma {:induction false} SerialKeepsOneResult(events: seq<Event>, source: Source)
    requires Serial(events, source)
    ensures OneResult(Play(events), source)
    decreases |events|
  {
    if events == [] {
    } else {
      var h, e := Init(events), Last(events);
      SerialKeepsOneResult(h, source);
      match e {
        case Begin(id, c) =>
          if id !in Play(h).calls {
            NotBegun(h, id);
          }
          BeginKeepsOneResult(Play(h), id, c, source);
        case Finish(id) => FinishKeepsOneResult(Play(h), id, source);
      }
    }
  }

  lemma {:induction false} BeginKeepsOneResult(w: World, id: nat, c: Call, source: Source)
    requires OneResult(w, source) && !Collides(w, Begin(id, c), source)
    requires id !in w.calls ==> id !in w.pending && id !in w.answers
    ensures OneResult(Step(w, Begin(id, c)), source)
  {
    var v := Step(w, Begin(id, c));
    assert forall i :: i != id ==> (IsPending(v, i, source) <==> IsPending(w, i, source));
  }

  lemma {:induction false} FinishKeepsOneResult(w: World, id: nat, source: Source)
    requires OneResult(w, source)
    ensures OneResult(Step(w, Finish(id)), source)
  {
    var v := Step(w, Finish(id));
    assert forall i :: i != id ==> (IsPending(v, i, source) <==> IsPending(w, i, source));
    assert forall i :: i != id ==> (IsAnswered(v, i, source) <==> IsAnswered(w, i, source));
    assert id in w.pending && id in w.calls ==> !IsPending(v, id, source);
    if IsPending(w, id, source) {
      forall i | i in w.calls && Uses(w.calls[i], source)
        ensures i == id
      {
        assert IsPending(w, i, source);
      }
    }
  }

  /** Two requests for `source` that are both computed, when some overlap. */
  lemma {:induction false} OverlapComputesTwice(events: seq<Event>, source: Source) returns (i: nat, j: nat)
    requires !Serial(events, source)
    ensures i != j && i in Play(events).calls && j in Play(events).calls
    ensures Uses(Play(events).calls[i], source) && Uses(Play(events).calls[j], source)
    ensures LastFinished(events[..BeginOf(events, i)], source).None?
    ensures LastFinished(events[..BeginOf(events, j)], source).None?
    decreases |events|
  {
    var h, e := Init(events), Last(events);
    if Serial(h, source) {
      var w := Play(h);
      i :| IsPending(w, i, source);
      j := e.id;
      SerialKeepsOneResult(h, source);
      StoreExact(h, source);
      RequestExact(h, i);
      BeginOfInit(events, i);
      RequestExact(events, j);
      BegunIff(h, j);
      assert events[..|h|] == h && forall k :: 0 <= k < |h| ==> events[k] == h[k];
      assert BeginOf(events, j) == |h|;
    } else {
      i, j := OverlapComputesTwice(h, source);
      BegunIff(h, i);
      BegunIff(h, j);
      BeginOfInit(events, i);
      BeginOfInit(events, j);
    }
  }

  /** At most one answered request for `source` was computed. */
  ghost predicate ComputedOnce(events: seq<Event>, source: Source) {
    forall i, j :: WasComputed(events, i, source) && WasComputed(events, j, source) ==> i == j
  }

  /**
   * All answers agree, whatever the function produces each time, exactly when it was computed for
   * at most one of the requests answered.
   */
  lemma {:induction false} AgreementIff(events: seq<Event>, source: Source)
    requires source.content.Computed?
    ensures (forall results :: AnswersAgree(Play(WithResults(events, results)), source))
       <==> ComputedOnce(events, source)
  {
    if ComputedOnce(events, source) {
      forall results: nat -> seq<Row>
        ensures AnswersAgree(Play(WithResults(events, results)), source)
      {
        OnceKept(events, results, source);
        OnceAgrees(WithResults(events, results), source);
      }
    } else {
      var i, j :| WasComputed(events, i, source) && WasComputed(events, j, source) && i != j;
      DifferentResults(events, source, i, j);
    }
  }

  /** Results that tell request `i` from all others. */
  function Marking(i: nat): (f: nat -> seq<Row>) {
    (id: nat) => if id == i then [] else [PlainRow("")]
  }

  lemma {:induction false} DifferentResults(events: seq<Event>, source: Source, i: nat, j: nat)
    requires source.content.Computed? && i != j
    requires WasComputed(events, i, source) && WasComputed(events, j, source)
    ensures !AnswersAgree(Play(WithResults(events, Marking(i))), source)
  {
    var es := WithResults(events, Marking(i));
    ComputedKept(events, Marking(i), source, i);
    ComputedKept(events, Marking(i), source, j);
    ComputedAnswer(events, Marking(i), source, i);
    ComputedAnswer(events, Marking(i), source, j);
    assert IsAnswered(Play(es), i, source) && IsAnswered(Play(es), j, source);
  }

  /**
   * If no request for the source begins while another is being computed, the first result answers
   * everything; in a run that leaves none unfinished, only then.
   */
  lemma {:induction false} AgreementIffSerial(events: seq<Event>, source: Source)
    requires source.content.Computed?
    ensures Serial(events, source) ==> forall results :: AnswersAgree(Play(WithResults(events, results)), source)
    ensures (forall i :: !IsPending(Play(events), i, source)) ==>
      ((forall results :: AnswersAgree(Play(WithResults(events, results)), source)) <==> Serial(events, source))
  {
    AgreementIff(events, source);
    if Serial(events, source) {
      SerialComputesOnce(events, source);
    } else if forall i :: !IsPending(Play(events), i, source) {
      var i, j := OverlapComputesTwice(events, source);
      RequestExact(events, i);
      RequestExact(events, j);
      assert !IsPending(Play(events), i, source) && !IsPending(Play(events), j, source);
      assert WasComputed(events, i, source) && WasComputed(events, j, source);
    }
  }

  lemma {:induction false} SerialComputesOnce(events: seq<Event>, source: Source)
    requires source.content.Computed? && Serial(events, source)
    ensures ComputedOnce(events, source)
  {
    forall i, j | WasComputed(events, i, source) && WasComputed(events, j, source)
      ensures i == j
    {
      SerialKept(events, Marking(i), source);
      SerialKeepsOneResult(WithResults(events, Marking(i)), source);
      if i != j {
        DifferentResults(events, source, i, j);
      }
    }
  }

  /** One computed request answers every other. */
  lemma {:induction false} OnceAgrees(events: seq<Event>, source: Source)
    requires ComputedOnce(events, source)
    ensures AnswersAgree(Play(events), source)
  {
    var w := Play(events);
    forall i, j | IsAnswered(w, i, source) && IsAnswered(w, j, source)
      ensures w.answers[i] == w.answers[j]
    {
      var a := ComputedFor(events, source, i);
      var b := ComputedFor(events, source, j);
    }
  }

  lemma {:induction false} ComputedFor(events: seq<Event>, source: Source, i: nat) returns (j: nat)
    requires IsAnswered(Play(events), i, source)
    ensures WasComputed(events, j, source) && Play(events).answers[i] == Fresh(Play(events).calls[j])
  {
    RequestExact(events, i);
    var k := BeginOf(events, i);
    if LastFinished(events[..k], source).Some? {
      j := FinishedWasComputed(events[..k], source);
      ComputedStays(events, k, j, source);
    } else {
      j := i;
    }
  }

  lemma {:induction false} OnceKept(events: seq<Event>, results: nat -> seq<Row>, source: Source)
    requires ComputedOnce(events, source)
    ensures ComputedOnce(WithResults(events, results), source)
  {
    var es := WithResults(events, results);
    forall i, j | WasComputed(es, i, source) && WasComputed(es, j, source)
      ensures i == j
    {
      ComputedKept(events, results, source, i);
      ComputedKept(events, results, source, j);
    }
  }

  lemma {:induction false} BeginOfKept(events: seq<Event>, results: nat -> seq<Row>, id: nat)
    ensures BeginOf(WithResults(events, results), id) == BeginOf(events, id)
  {
    var es := WithResults(events, results);
    assert forall k :: 0 <= k < |events| ==> es[k] == Retell(results)(events[k]);
    var k, j := BeginOf(events, id), BeginOf(es, id);
    assert k < |events| ==> es[k].Begin? && es[k].id == id;
    assert j < |events| ==> events[j].Begin? && events[j].id == id;
  }

  /** Which requests are computed does not depend on what the function produces. */
  lemma {:induction false} ComputedKept(events: seq<Event>, results: nat -> seq<Row>, source: Source, i: nat)
    ensures WasComputed(events, i, source) <==> WasComputed(WithResults(events, results), i, source)
  {
    var es, k := WithResults(events, results), BeginOf(events, i);
    ShapeKept(events, results);
    if i in Play(events).calls {
      assert SameCall(Play(events).calls[i], Play(es).calls[i]);
    }
    BeginOfKept(events, results, i);
    assert es[..k] == WithResults(events[..k], results);
    ShapeKept(events[..k], results);
    StoreExact(events[..k], source);
    StoreExact(es[..k], source);
  }

  lemma {:induction false} ComputedAnswer(events: seq<Event>, results: nat -> seq<Row>, source: Source, i: nat)
    requires source.content.Computed? && WasComputed(WithResults(events, results), i, source)
    ensures |Play(WithResults(events, results)).answers[i]| == |results(i)|
  {
    ShapeKept(events, results);
    RequestExact(WithResults(events, results), i);
  }

  /** The smallest overlap: both requests miss, each gets its own result, and the later one stays. */
  lemma {:induction false} OverlapKeepsLastResult(x: Call, y: Call)
    requires x.source == y.source && Cacheable(x) && Cacheable(y)
    ensures var w := Play([Begin(0, x), Begin(1, y), Finish(0), Finish(1)]);
      w.answers == map[0 := Fresh(x), 1 := Fresh(y)] && w.store == map[x.source := Fresh(y)]
  {
    var e1, e2, e3 := [Begin(0, x)], [Begin(0, x), Begin(1, y)], [Begin(0, x), Begin(1, y), Finish(0)];
    var e4 := e3 + [Finish(1)];
    assert Init(e1) == [] && Init(e2) == e1 && Init(e3) == e2 && Init(e4) == e3;
    assert Play(e1) == World(map[], map[0 := x], {0}, map[]);
    assert Play(e2) == World(map[], map[0 := x, 1 := y], {0, 1}, map[]);
    assert e4 == [Begin(0, x), Begin(1, y), Finish(0), Finish(1)];
  }

  /** An overlap whose second request has not been answered yet shows no difference so far. */
  lemma {:induction false} UnansweredOverlapAgrees(x: Call, y: Call)
    requires x.source == y.source && Cacheable(x) && Cacheable(y)
    ensures var events := [Begin(0, x), Begin(1, y), Finish(0)];
      AnswersAgree(Play(events), x.source) && !Serial(events, x.source)
  {
    var e1, e2, e3 := [Begin(0, x)], [Begin(0, x), Begin(1, y)], [Begin(0, x), Begin(1, y), Finish(0)];
    assert Init(e1) == [] && Init(e2) == e1 && Init(e3) == e2;
    assert Play(e1) == World(map[], map[0 := x], {0}, map[]);
    assert IsPending(Play(e1), 0, x.source);
    assert Collides(Play(e1), Begin(1, y), x.source);
    assert Play(e2) == World(map[], map[0 := x, 1 := y], {0, 1}, map[]);
    assert Play(e3).answers.Keys == {0};
  }
}

/**
 * A completion session for one argument: the term seen on the last keystroke, and the term a
 * generator was last run for. A keystroke runs the generator exactly when its `trigger(new,
 * previous)` holds. The results over this session compare what the generator answers for the two
 * terms; `EngineRows` says what the engine shows of such an answer.
 */
module Sessions {

  type Trigger = (string, string) -> bool

  datatype Session = Session(term: string, computedFor: string)

  /** The first run of a generator always computes. */
  function Start(term: string): (s: Session) {
    Session(term, term)
  }

  /** One keystroke: `next` replaces the term, however it differs from it. */
  function Advance(trigger: Trigger, s: Session, next: string): (r: Session) {
    Session(next, if trigger(next, s.term) then next else s.computedFor)
  }

  /** A whole run of keystrokes. */
  function Run(trigger: Trigger, s: Session, terms: seq<string>): (r: Session)
    decreases |terms|
  {
    if terms == [] then s else Run(trigger, Advance(trigger, s, terms[0]), terms[1..])
  }

  /** Every keystroke of the run is an edit that `allowed(old, new)` admits. */
  ghost predicate Edits(allowed: (string, string) -> bool, from: string, terms: seq<string>)
    decreases |terms|
  {
    terms == [] || (allowed(from, terms[0]) && Edits(allowed, terms[0], terms[1..]))
  }

  predicate AnyEdit(old_: string, new_: string) {
    true
  }

  /** Typing or deleting any number of characters at the end. */
  predicate EndEdit(old_: string, new_: string) {
    old_ <= new_ || new_ <= old_
  }

  /** Typing or deleting one character at the end. */
  predicate SingleEndEdit(old_: string, new_: string) {
    || (old_ <= new_ && |new_| == |old_| + 1)
    || (new_ <= old_ && |old_| == |new_| + 1)
  }

  /** These edits are all those that add `x` at the end or take it away, and no others. */
  lemma {:induction false} EndEditsExact(a: string, x: string, b: string)
    ensures EndEdit(a, a + x) && EndEdit(a + x, a)
    ensures |x| == 1 <==> SingleEndEdit(a, a + x)
    ensures |x| == 1 <==> SingleEndEdit(a + x, a)
    ensures EndEdit(a, b) <==> (|a| <= |b| && b[..|a|] == a) || (|b| <= |a| && a[..|b|] == b)
  {
    assert a <= a + x;
  }

  /**
   * The induction behind every reuse theorem: a preorder that links the two terms of each
   * admitted keystroke that does not trigger links the computed term to the current one.
   */
  lemma {:induction false} RunKeeps(trigger: Trigger, allowed: (string, string) -> bool,
      rel: (string, string) -> bool, s: Session, terms: seq<string>)
    requires forall a :: rel(a, a)
    requires forall a, b, c :: rel(a, b) && rel(b, c) ==> rel(a, c)
    requires forall a, b :: allowed(a, b) && !trigger(b, a) ==> rel(a, b)
    requires Edits(allowed, s.term, terms)
    requires rel(s.computedFor, s.term)
    ensures var r := Run(trigger, s, terms); rel(r.computedFor, r.term)
    decreases |terms|
  {
    if terms == [] {
    } else {
      RunKeeps(trigger, allowed, rel, Advance(trigger, s, terms[0]), terms[1..]);
    }
  }

  /** Every run is a run of arbitrary edits. */
  lemma {:induction false} AnyRun(from: string, terms: seq<string>)
    ensures Edits(AnyEdit, from, terms)
    decreases |terms|
  {
    if terms == [] {
    } else {
      AnyRun(terms[0], terms[1..]);
    }
  }

  /** At every point of the run the computed and the current term are related. */
  ghost predicate Always(trigger: Trigger, rel: (string, string) -> bool, s: Session, terms: seq<string>)
    decreases |terms|
  {
    && rel(s.computedFor, s.term)
    && (terms == [] || Always(trigger, rel, Advance(trigger, s, terms[0]), terms[1..]))
  }

  /** The keystroke recomputes, or replaces the term by a related one. */
  function Harmless(trigger: Trigger, rel: (string, string) -> bool): (allowed: (string, string) -> bool) {
    (old_: string, new_: string) => trigger(new_, old_) || rel(old_, new_)
  }

  /** For an equivalence, reuse is right throughout a run exactly when every keystroke of it is harmless. */
  lemma {:induction false} AlwaysIff(trigger: Trigger, rel: (string, string) -> bool,
      allowed: (string, string) -> bool, s: Session, terms: seq<string>)
    requires forall a :: rel(a, a)
    requires forall a, b :: rel(a, b) ==> rel(b, a)
    requires forall a, b, c :: rel(a, b) && rel(b, c) ==> rel(a, c)
    requires forall a, b :: allowed(a, b) <==> Harmless(trigger, rel)(a, b)
    requires rel(s.computedFor, s.term)
    ensures Always(trigger, rel, s, terms) <==> Edits(allowed, s.term, terms)
    decreases |terms|
  {
    if terms == [] {
    } else {
      var next := Advance(trigger, s, terms[0]);
      assert rel(next.computedFor, next.term) <==> allowed(s.term, terms[0]);
      if allowed(s.term, terms[0]) {
        AlwaysIff(trigger, rel, allowed, next, terms[1..]);
      }
    }
  }
}

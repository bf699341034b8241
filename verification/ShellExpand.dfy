/** `shellExpand`: the tilde step, then `$NAME`, then `${NAME}` and `${NAME:-default}`. */
module ShellExpand {
  import opened Seqs
  import opened Js

  type Environment = map<string, string>

  // ----- the tilde step

  /**
   * The text JavaScript's `replace` inserts for a replacement string, when the match is the `~` at
   * the start: `$$` is a dollar, `$&` the match, a dollar-backtick the (empty) text before the
   * match, a dollar-quote the text after it.
   */
  function Replacement(t: string, after: string): (r: string) {
    if |t| < 2 then t
    else if t[0] != '$' then [t[0]] + Replacement(t[1..], after)
    else if t[1] == '$' then "$" + Replacement(t[2..], after)
    else if t[1] == '&' then "~" + Replacement(t[2..], after)
    else if t[1] == '`' then Replacement(t[2..], after)
    else if t[1] == '\'' then after + Replacement(t[2..], after)
    else "$" + Replacement(t[1..], after)
  }

  /** The replacement string copies the text after the match. */
  predicate CopiesRest(t: string) {
    if |t| < 2 then false
    else if t[0] != '$' then CopiesRest(t[1..])
    else if t[1] in "$&`" then CopiesRest(t[2..])
    else t[1] == '\'' || CopiesRest(t[1..])
  }

  function Home(env: Environment): (h: string) {
    if "HOME" in env then env["HOME"] else "~"
  }

  predicate HasTilde(s: string) {
    s != "" && s[0] == '~' && (|s| == 1 || s[1] == '/')
  }

  function ExpandTilde(s: string, home: string): (r: string) {
    if HasTilde(s) then Replacement(home, s[1..]) + s[1..] else s
  }

  // ----- the first substitution pass: /\$([A-Za-z0-9_]+)/g

  predicate IsWord(c: char) {
    'A' <= c <= 'Z' || 'a' <= c <= 'z' || '0' <= c <= '9' || c == '_'
  }

  /** Length of the longest run of word characters at the start of `s`. */
  function WordLength(s: string): (n: nat)
    ensures n <= |s|
    ensures forall i :: 0 <= i < n ==> IsWord(s[i])
    ensures n < |s| ==> !IsWord(s[n])
  {
    if s == "" || !IsWord(s[0]) then 0 else 1 + WordLength(s[1..])
  }

  /** Length of the `$NAME` at the start of `s`, or 0. */
  function NameLength(s: string): (n: nat)
    ensures n <= |s| && n != 1
  {
    if s == "" || s[0] != '$' || WordLength(s[1..]) == 0 then 0 else WordLength(s[1..]) + 1
  }

  /** Length of what the scan consumes at the start of a non-empty `s`. */
  function NameStep(s: string): (k: nat)
    requires s != ""
    ensures 0 < k <= |s|
  {
    if NameLength(s) == 0 then 1 else NameLength(s)
  }

  /** What the pass writes for a match, or for a single character that starts none. */
  function NameValue(matched: string, env: Environment): (r: string) {
    if |matched| > 1 && matched[1..] in env then env[matched[1..]] else matched
  }

  function ExpandNames(s: string, env: Environment): (r: string)
    decreases |s|
  {
    if s == "" then ""
    else
      var k := NameStep(s);
      NameValue(s[..k], env) + ExpandNames(s[k..], env)
  }

  // ----- the second substitution pass: /\$\{([A-Za-z0-9_]+)(?::-([^}]+))?\}/g

  /** The rest of a match after its name: the fallback, and how many characters it takes. */
  datatype Body = Body(fallback: Option<string>, length: nat)

  datatype Brace = Brace(name: string, body: Body)

  predicate HasFallback(rest: string) {
    |rest| >= 2 && rest[0] == ':' && rest[1] == '-'
  }

  /** `(?::-([^}]+))?\}` at the start of `rest`. */
  function BodyAt(rest: string): (b: Option<Body>)
    ensures b.Some? ==> 0 < b.value.length <= |rest| && rest[b.value.length - 1] == '}'
  {
    if rest != "" && rest[0] == '}' then Some(Body(None, 1))
    else if !HasFallback(rest) then None
    else
      var k := IndexOf(rest[2..], '}');
      if k <= 0 then None else Some(Body(Some(rest[2..][..k]), k + 3))
  }

  /** The name after `${` at the start of `s`; empty when there is none. */
  function BraceName(s: string): (name: string)
    ensures name != "" ==> |name| + 2 <= |s|
  {
    if |s| >= 2 && s[0] == '$' && s[1] == '{' then s[2..][..WordLength(s[2..])] else ""
  }

  /** The match of the pattern at the start of `s`, if any. */
  function BraceAt(s: string): (b: Option<Brace>) {
    var name := BraceName(s);
    if name == "" then None
    else match BodyAt(s[|name| + 2..])
      case None => None
      case Some(body) => Some(Brace(name, body))
  }

  /** `s` starts with `${NAME:-` and nothing closes it. */
  predicate OpenAt(s: string) {
    var name := BraceName(s);
    name != "" && Unclosed(s[|name| + 2..])
  }

  predicate Unclosed(rest: string) {
    HasFallback(rest) && '}' !in rest[2..]
  }

  /** Length of what the scan consumes at the start of a non-empty `s`. */
  function BraceStep(s: string): (k: nat)
    requires s != ""
    ensures 0 < k <= |s|
  {
    if BraceAt(s).Some? then |BraceName(s)| + 2 + BraceAt(s).value.body.length else 1
  }

  /** What the pass writes for a match, or for a single character that starts none. */
  function BraceValue(b: Option<Brace>, matched: string, env: Environment): (r: string) {
    match b
    case None => matched
    case Some(Brace(name, Body(fallback, _))) =>
      if name in env then env[name] else if fallback.Some? then fallback.value else matched
  }

  function ExpandBraces(s: string, env: Environment): (r: string)
    decreases |s|
  {
    if s == "" then ""
    else
      var k := BraceStep(s);
      BraceValue(BraceAt(s), s[..k], env) + ExpandBraces(s[k..], env)
  }

  /** What the pass writes before the first `${NAME:-` left open at the end of `q`. */
  function BeforeOpen(q: string, env: Environment): (r: string)
    decreases |q|
  {
    if q == "" || OpenAt(q) then ""
    else
      var k := BraceStep(q);
      BraceValue(BraceAt(q), q[..k], env) + BeforeOpen(q[k..], env)
  }

  /** What remains of `q` from there on; empty when nothing is left open. */
  function FromOpen(q: string): (o: string)
    ensures o == "" || OpenAt(o)
    ensures o != "" && IsDirectory(q) ==> IsDirectory(o)
    decreases |q|
  {
    if q == "" || OpenAt(q) then q else FromOpen(q[BraceStep(q)..])
  }

  /** The text typed so far of a default that is still open. */
  function OpenText(o: string): (a: string)
    requires OpenAt(o)
  {
    o[|BraceName(o)| + 4..]
  }

  /** What an open default and the text after it become. */
  function ExpandOpen(o: string, s: string, env: Environment): (r: string)
    requires OpenAt(o)
  {
    ExpandOpenAt(o, s, IndexOf(s, '}'), env)
  }

  /** The same, given where the first closing brace is. */
  function ExpandOpenAt(o: string, s: string, k: int, env: Environment): (r: string)
    requires OpenAt(o) && k < |s|
  {
    if k < 0 then o + s else ClosedValue(o, s[..k], env) + ExpandBraces(s[k + 1..], env)
  }

  /** What it becomes when `x` and a brace close it. */
  function ClosedValue(o: string, x: string, env: Environment): (r: string)
    requires OpenAt(o)
  {
    if BraceName(o) in env then env[BraceName(o)] else OpenText(o) + x
  }

  // ----- the whole expansion

  function ExpandVariables(s: string, env: Environment): (r: string) {
    ExpandBraces(ExpandNames(s, env), env)
  }

  /** What the second pass is given for `s`. */
  function ForBraces(s: string, env: Environment): (r: string) {
    ExpandNames(ExpandTilde(s, Home(env)), env)
  }

  function Expand(s: string, env: Environment): (r: string) {
    ExpandVariables(ExpandTilde(s, Home(env)), env)
  }

  /** `s` is a directory prefix: it ends in a slash. */
  predicate IsDirectory(s: string) {
    EndsWith(s, '/')
  }

  // ----- the tilde step leaves the tail alone

  lemma {:induction false} ReplacementIgnoresRest(t: string, a: string, b: string)
    requires !CopiesRest(t)
    ensures Replacement(t, a) == Replacement(t, b)
    decreases |t|
  {
    if |t| < 2 {
    } else {
      if t[0] == '$' && t[1] in "$&`" {
        ReplacementIgnoresRest(t[2..], a, b);
      } else {
        ReplacementIgnoresRest(t[1..], a, b);
      }
    }
  }

  lemma {:induction false} ExpandTildeTail(p: string, r: string, home: string)
    requires IsDirectory(p) && !CopiesRest(home)
    ensures ExpandTilde(p + r, home) == ExpandTilde(p, home) + r
    ensures IsDirectory(ExpandTilde(p, home))
  {
    assert HasTilde(p + r) == HasTilde(p) by {
      assert (p + r)[0] == p[0] && (|p| >= 2 ==> (p + r)[1] == p[1]);
    }
    if HasTilde(p) {
      var h := Replacement(home, p[1..]);
      assert (p + r)[1..] == p[1..] + r;
      ReplacementIgnoresRest(home, p[1..] + r, p[1..]);
      Associative(h, p[1..], r);
      DirectoryAppend(h, p[1..]);
    }
  }

  // ----- the first pass is separable at a slash

  lemma {:induction false} WordLengthTail(s: string, r: string)
    requires IsDirectory(s)
    ensures WordLength(s + r) == WordLength(s) < |s|
  {
    if !IsWord(s[0]) {
    } else {
      assert (s + r)[1..] == s[1..] + r;
      WordLengthTail(s[1..], r);
    }
  }

  lemma {:induction false} NameLengthTail(p: string, r: string)
    requires IsDirectory(p)
    ensures NameLength(p + r) == NameLength(p) < |p|
    ensures NameStep(p + r) == NameStep(p)
  {
    if p[0] == '$' {
      assert (p + r)[1..] == p[1..] + r;
      WordLengthTail(p[1..], r);
    }
  }

  lemma {:induction false} ExpandNamesTail(p: string, r: string, env: Environment)
    requires p == "" || IsDirectory(p)
    ensures ExpandNames(p + r, env) == ExpandNames(p, env) + ExpandNames(r, env)
    decreases |p|
  {
    if p == "" {
      assert p + r == r;
    } else {
      NameLengthTail(p, r);
      var k := NameStep(p);
      Cut(p, r, k);
      var h, rest := NameValue(p[..k], env), p[k..];
      calc {
        ExpandNames(p + r, env);
        NameValue((p + r)[..k], env) + ExpandNames((p + r)[k..], env);
        h + ExpandNames(rest + r, env);
        { ExpandNamesTail(rest, r, env); }
        h + (ExpandNames(rest, env) + ExpandNames(r, env));
        { Associative(h, ExpandNames(rest, env), ExpandNames(r, env)); }
        ExpandNames(p, env) + ExpandNames(r, env);
      }
    }
  }

  lemma {:induction false} Cut(p: string, r: string, k: nat)
    requires k <= |p|
    ensures (p + r)[..k] == p[..k] && (p + r)[k..] == p[k..] + r
  {
  }

  lemma {:induction false} ExpandNamesDirectory(p: string, env: Environment)
    requires IsDirectory(p)
    ensures IsDirectory(ExpandNames(p, env))
    decreases |p|
  {
    if |p| == 1 {
      assert p == "/" && NameLength(p) == 0 && p[1..] == "";
    } else {
      NameLengthTail(p, "");
      assert p + "" == p;
      var k := NameStep(p);
      ExpandNamesDirectory(p[k..], env);
      DirectoryAppend(NameValue(p[..k], env), ExpandNames(p[k..], env));
    }
  }

  lemma {:induction false} DirectoryAppend(a: string, b: string)
    requires IsDirectory(b)
    ensures IsDirectory(a + b)
  {
  }

  // ----- the second pass is separable at a slash, unless the tail closes an open brace

  lemma {:induction false} BraceNameTail(q: string, r: string)
    requires IsDirectory(q)
    ensures BraceName(q + r) == BraceName(q)
    ensures BraceName(q) != "" ==> |BraceName(q)| + 2 < |q|
  {
    if |q| > 2 {
      Cut(q, r, 2);
      WordLengthTail(q[2..], r);
      Cut(q[2..], r, WordLength(q[2..]));
      assert (q + r)[0] == q[0] && (q + r)[1] == q[1];
    } else {
      ShortDirectory(q, r);
    }
  }

  lemma {:induction false} ShortDirectory(q: string, r: string)
    requires IsDirectory(q) && |q| <= 2
    ensures BraceName(q + r) == "" && BraceName(q) == ""
  {
    assert (q + r)[|q| - 1] == '/';
  }

  lemma {:induction false} BodyAtTail(rest: string, r: string)
    requires IsDirectory(rest)
    requires '}' !in r || !Unclosed(rest)
    ensures BodyAt(rest + r) == BodyAt(rest)
  {
    if HasFallback(rest) {
      Cut(rest, r, 2);
      FirstBraceTail(rest[2..], r);
      var k := IndexOf(rest[2..], '}');
      if k > 0 {
        Cut(rest[2..], r, k);
      }
    }
  }

  lemma {:induction false} BraceAtTail(q: string, r: string)
    requires IsDirectory(q)
    requires '}' !in r || !OpenAt(q)
    ensures BraceAt(q + r) == BraceAt(q)
    ensures BraceStep(q + r) == BraceStep(q)
  {
    BraceNameTail(q, r);
    var n := |BraceName(q)| + 2;
    if BraceName(q) != "" {
      Cut(q, r, n);
      BodyAtTail(q[n..], r);
    }
  }

  lemma {:induction false} FirstBraceTail(x: string, r: string)
    requires '}' in x || '}' !in r
    ensures IndexOf(x + r, '}') == IndexOf(x, '}')
  {
    var k := IndexOf(x, '}');
    if k >= 0 {
      IndexOfUnique(x + r, '}', k);
    } else {
      assert '}' !in x;
    }
  }

  lemma {:induction false} NoBraceUnchanged(x: string, env: Environment)
    requires '}' !in x
    ensures ExpandBraces(x, env) == x
  {
    if x == "" {
    } else {
      assert BraceAt(x) == None;
      NoBraceUnchanged(x[1..], env);
    }
  }

  /** The scan up to an open default does not look beyond it. */
  lemma {:induction false} ScanToOpen(q: string, s: string, env: Environment)
    requires q == "" || IsDirectory(q)
    ensures ExpandBraces(q + s, env) == BeforeOpen(q, env) + ExpandBraces(FromOpen(q) + s, env)
    decreases |q|
  {
    if q == "" || OpenAt(q) {
      assert BeforeOpen(q, env) + ExpandBraces(q + s, env) == ExpandBraces(q + s, env);
    } else {
      BraceAtTail(q, s);
      var k := BraceStep(q);
      Cut(q, s, k);
      var h, rest := BraceValue(BraceAt(q), q[..k], env), q[k..];
      calc {
        ExpandBraces(q + s, env);
        BraceValue(BraceAt(q + s), (q + s)[..k], env) + ExpandBraces((q + s)[k..], env);
        h + ExpandBraces(rest + s, env);
        { ScanToOpen(rest, s, env); }
        h + (BeforeOpen(rest, env) + ExpandBraces(FromOpen(q) + s, env));
        { Associative(h, BeforeOpen(rest, env), ExpandBraces(FromOpen(q) + s, env)); }
        BeforeOpen(q, env) + ExpandBraces(FromOpen(q) + s, env);
      }
    }
  }

  /** An open default is its opening, `${NAME:-`, and a text without a closing brace that ends in a slash. */
  lemma {:induction false} OpenParts(o: string)
    requires OpenAt(o) && IsDirectory(o)
    ensures o == "${" + (BraceName(o) + (":-" + OpenText(o))) && '}' !in o
    ensures IsDirectory(OpenText(o)) && |OpenText(o)| < |o| && o[0] == '$'
  {
    OpenShape(o, BraceName(o));
    OpenNoBrace(o, BraceName(o));
    DirectoryRest(o, |BraceName(o)| + 4);
  }

  lemma {:induction false} DirectoryRest(o: string, n: nat)
    requires IsDirectory(o) && 0 < n <= |o| && o[n - 1] != '/'
    ensures n < |o| && IsDirectory(o[n..])
  {
  }

  lemma {:induction false} OpenShape(o: string, name: string)
    requires OpenAt(o) && name == BraceName(o)
    ensures |name| + 4 <= |o| && o == "${" + (name + (":-" + o[|name| + 4..]))
    ensures o[|name| + 3] == '-'
  {
    var rest := o[|name| + 2..];
    assert o[..2] == "${" && o[2..|name| + 2] == name;
    assert rest[2..] == o[|name| + 4..] && rest == ":-" + rest[2..];
  }

  lemma {:induction false} OpenNoBrace(o: string, name: string)
    requires OpenAt(o) && name == BraceName(o)
    ensures '}' !in o
  {
    var rest := o[|name| + 2..];
    assert '}' !in name && '}' !in rest[2..];
    assert o == "${" + (name + (":-" + rest[2..])) by {
      OpenShape(o, name);
      assert rest[2..] == o[|name| + 4..];
    }
  }

  lemma {:induction false} FallbackBody(x: string, k: nat)
    requires 0 < k == IndexOf(x, '}')
    ensures BodyAt(":-" + x) == Some(Body(Some(x[..k]), k + 3))
  {
    var rest := ":-" + x;
    assert rest[0] == ':' && rest[2..] == x;
  }

  lemma {:induction false} BraceIndex(f: string, y: string)
    requires '}' !in f
    ensures IndexOf(f + ("}" + y), '}') == |f|
  {
    var x := f + ("}" + y);
    assert x[|f|] == '}' && forall j :: 0 <= j < |f| ==> x[j] == f[j];
    IndexOfUnique(x, '}', |f|);
  }

  lemma {:induction false} DefaultBody(fallback: string, rest: string)
    requires fallback != "" && '}' !in fallback
    ensures BodyAt(":-" + (fallback + ("}" + rest))) == Some(Body(Some(fallback), |fallback| + 3))
  {
    var x := fallback + ("}" + rest);
    BraceIndex(fallback, rest);
    FallbackBody(x, |fallback|);
    assert x[..|fallback|] == fallback;
  }

  lemma {:induction false} ClosingText(a: string, s: string, k: nat)
    requires k == IndexOf(s, '}')
    ensures a + s == (a + s[..k]) + ("}" + s[k + 1..]) && '}' !in s[..k]
  {
  }

  lemma {:induction false} ClosingBody(a: string, s: string, k: nat)
    requires a != "" && '}' !in a && k == IndexOf(s, '}')
    ensures BodyAt(":-" + (a + s)) == Some(Body(Some(a + s[..k]), |a| + k + 3))
  {
    ClosingText(a, s, k);
    DefaultBody(a + s[..k], s[k + 1..]);
  }

  lemma {:induction false} BraceFromParts(s: string, name: string, rest: string, body: Body)
    requires BraceName(s) == name != "" && s[|name| + 2..] == rest && BodyAt(rest) == Some(body)
    ensures BraceAt(s) == Some(Brace(name, body)) && BraceStep(s) == |name| + 2 + body.length
  {
  }

  lemma {:induction false} ClosingBrace(o: string, s: string, k: nat)
    requires OpenAt(o) && IsDirectory(o) && k == IndexOf(s, '}')
    ensures BraceAt(o + s) == Some(Brace(BraceName(o), Body(Some(OpenText(o) + s[..k]), |OpenText(o)| + k + 3)))
    ensures BraceStep(o + s) == |o| + k + 1
  {
    var name, a := BraceName(o), OpenText(o);
    BraceNameTail(o, s);
    OpenRest(o, s);
    OpenTextFacts(o);
    ClosingBody(a, s, k);
    BraceFromParts(o + s, name, ":-" + (a + s), Body(Some(a + s[..k]), |a| + k + 3));
  }

  lemma {:induction false} OpenTextFacts(o: string)
    requires OpenAt(o) && IsDirectory(o)
    ensures OpenText(o) != "" && '}' !in OpenText(o)
  {
    OpenParts(o);
    NotInSuffix(o, |BraceName(o)| + 4);
  }

  lemma {:induction false} NotInSuffix(o: string, n: nat)
    requires n <= |o| && '}' !in o
    ensures '}' !in o[n..]
  {
  }

  lemma {:induction false} OpenRest(o: string, s: string)
    requires OpenAt(o) && IsDirectory(o)
    ensures (o + s)[|BraceName(o)| + 2..] == ":-" + (OpenText(o) + s) && |o| == |BraceName(o)| + 4 + |OpenText(o)|
  {
    var n := |BraceName(o)| + 2;
    OpenShape(o, BraceName(o));
    Cut(o, s, n);
    assert o[n..] == ":-" + OpenText(o);
    Associative(":-", OpenText(o), s);
  }

  /** The text after an open default either leaves it open or closes it at its first brace. */
  lemma {:induction false} ExpandAtOpen(o: string, s: string, env: Environment)
    requires OpenAt(o) && IsDirectory(o)
    ensures ExpandBraces(o + s, env) == ExpandOpen(o, s, env)
  {
    if IndexOf(s, '}') < 0 {
      StaysOpen(o, s, env);
    } else {
      IsClosed(o, s, env);
    }
  }

  lemma {:induction false} IsClosed(o: string, s: string, env: Environment)
    requires OpenAt(o) && IsDirectory(o) && IndexOf(s, '}') >= 0
    ensures ExpandBraces(o + s, env) == ExpandOpen(o, s, env)
  {
    ClosedAt(o, s, IndexOf(s, '}'), env);
  }

  lemma {:induction false} StaysOpen(o: string, s: string, env: Environment)
    requires OpenAt(o) && IsDirectory(o) && IndexOf(s, '}') < 0
    ensures ExpandBraces(o + s, env) == ExpandOpen(o, s, env)
  {
    OpenParts(o);
    assert '}' !in s;
    NoBraceUnchanged(o + s, env);
  }

  lemma {:induction false} ClosedAt(o: string, s: string, k: nat, env: Environment)
    requires OpenAt(o) && IsDirectory(o) && k == IndexOf(s, '}')
    ensures ExpandBraces(o + s, env) == ExpandOpenAt(o, s, k, env)
  {
    ClosingBrace(o, s, k);
    SplitAfter(o, s, k);
    BraceConsumed(o + s, o + s[..k + 1], s[k + 1..], env);
  }

  lemma {:induction false} SplitAfter(o: string, s: string, k: nat)
    requires k < |s|
    ensures o + s == o + s[..k + 1] + s[k + 1..]
  {
  }

  lemma {:induction false} BraceConsumed(s: string, m: string, rest: string, env: Environment)
    requires s == m + rest && m != "" && BraceStep(s) == |m|
    ensures ExpandBraces(s, env) == BraceValue(BraceAt(s), m, env) + ExpandBraces(rest, env)
  {
  }

  /** The second pass at a slash, for every tail. */
  lemma {:induction false} ExpandBracesAnyTail(q: string, s: string, env: Environment)
    requires q == "" || IsDirectory(q)
    ensures ExpandBraces(q + s, env) == BeforeOpen(q, env) +
      if FromOpen(q) == "" then ExpandBraces(s, env) else ExpandOpen(FromOpen(q), s, env)
  {
    ScanToOpen(q, s, env);
    if FromOpen(q) == "" {
      assert "" + s == s;
    } else {
      ExpandAtOpen(FromOpen(q), s, env);
    }
  }

  /** A directory part that leaves nothing open, or a tail that closes nothing. */
  lemma {:induction false} ExpandBracesTail(q: string, r: string, env: Environment)
    requires q == "" || IsDirectory(q)
    requires '}' !in r || FromOpen(q) == ""
    ensures ExpandBraces(q + r, env) == ExpandBraces(q, env) + ExpandBraces(r, env)
  {
    WholeScan(q, env);
    if FromOpen(q) == "" {
      NothingOpen(q, r, env);
    } else {
      NothingClosed(q, r, env);
    }
  }

  lemma {:induction false} NothingOpen(q: string, r: string, env: Environment)
    requires (q == "" || IsDirectory(q)) && FromOpen(q) == ""
    ensures ExpandBraces(q + r, env) == BeforeOpen(q, env) + FromOpen(q) + ExpandBraces(r, env)
  {
    ScanToOpen(q, r, env);
    assert "" + r == r && BeforeOpen(q, env) + "" == BeforeOpen(q, env);
  }

  lemma {:induction false} NothingClosed(q: string, r: string, env: Environment)
    requires IsDirectory(q) && FromOpen(q) != "" && '}' !in r
    ensures ExpandBraces(q + r, env) == BeforeOpen(q, env) + FromOpen(q) + ExpandBraces(r, env)
  {
    ExpandBracesAnyTail(q, r, env);
    NoBraceUnchanged(r, env);
    Associative(BeforeOpen(q, env), FromOpen(q), r);
  }

  lemma {:induction false} WholeScan(q: string, env: Environment)
    requires q == "" || IsDirectory(q)
    ensures ExpandBraces(q, env) == BeforeOpen(q, env) + FromOpen(q)
  {
    ExpandBracesAnyTail(q, "", env);
    assert q + "" == q && FromOpen(q) + "" == FromOpen(q);
  }

  lemma {:induction false} ExpandBracesDirectory(q: string, env: Environment)
    requires IsDirectory(q)
    ensures IsDirectory(ExpandBraces(q, env))
    decreases |q|
  {
    if |q| == 1 {
      assert q == "/" && BraceAt(q) == None && q[1..] == "";
    } else {
      var k := BraceStep(q);
      ExpandBracesDirectory(q[k..], env);
      DirectoryAppend(BraceValue(BraceAt(q), q[..k], env), ExpandBraces(q[k..], env));
    }
  }

  // ----- main results

  /** The tail cannot close a `${NAME:-` left open by the directory part. */
  predicate Separable(p: string, r: string, env: Environment) {
    '}' !in ExpandNames(r, env) || FromOpen(ForBraces(p, env)) == ""
  }

  /**
   * Expansion splits at a slash: both substitution passes and the tilde step treat the directory
   * part and the rest independently.
   */
  lemma {:induction false} ExpandSplits(p: string, r: string, env: Environment)
    requires IsDirectory(p) && !CopiesRest(Home(env)) && Separable(p, r, env)
    ensures Expand(p + r, env) == Expand(p, env) + ExpandVariables(r, env)
    ensures IsDirectory(Expand(p, env))
  {
    var t := ExpandTilde(p, Home(env));
    ExpandTildeTail(p, r, Home(env));
    ExpandNamesTail(t, r, env);
    ExpandNamesDirectory(t, env);
    ExpandBracesTail(ExpandNames(t, env), ExpandNames(r, env), env);
    ExpandBracesDirectory(ExpandNames(t, env), env);
  }

  /** At a slash, for every tail: one that closes an open default takes the whole reference with it. */
  lemma {:induction false} ExpandAnyTail(p: string, r: string, env: Environment)
    requires IsDirectory(p) && !CopiesRest(Home(env))
    ensures var q := ForBraces(p, env);
      && IsDirectory(q)
      && Expand(p + r, env) == BeforeOpen(q, env) +
           if FromOpen(q) == "" then ExpandVariables(r, env) else ExpandOpen(FromOpen(q), ExpandNames(r, env), env)
  {
    var t := ExpandTilde(p, Home(env));
    ExpandTildeTail(p, r, Home(env));
    ExpandNamesTail(t, r, env);
    ExpandNamesDirectory(t, env);
    ExpandBracesAnyTail(ForBraces(p, env), ExpandNames(r, env), env);
  }

  lemma {:induction false} NoDollarUnchanged(r: string, env: Environment)
    requires '$' !in r
    ensures ExpandNames(r, env) == r && ExpandBraces(r, env) == r
  {
    if r == "" {
    } else {
      NoDollarUnchanged(r[1..], env);
    }
  }

  /** Expansion only touches the directory part when the tail has no `$` and no `}`. */
  lemma {:induction false} ExpandKeepsTail(p: string, r: string, env: Environment)
    requires IsDirectory(p) && !CopiesRest(Home(env))
    requires '$' !in r && '}' !in r
    ensures Expand(p + r, env) == Expand(p, env) + r
    ensures IsDirectory(Expand(p, env))
  {
    NoDollarUnchanged(r, env);
    ExpandSplits(p, r, env);
  }

  lemma {:induction false} DollarFreeHome(t: string)
    requires '$' !in t
    ensures !CopiesRest(t)
  {
    if |t| < 2 {
    } else {
      DollarFreeHome(t[1..]);
    }
  }

  lemma {:induction false} PlainReplacement(t: string, after: string)
    requires '$' !in t
    ensures Replacement(t, after) == t
  {
    if |t| < 2 {
    } else {
      PlainReplacement(t[1..], after);
    }
  }

  // ----- replacement strings and the pattern's edges

  /** The pieces of a replacement string. */
  datatype Part = Literal(text: string) | DollarSign | TheMatch | TextBefore | TextAfter

  function PrintPart(p: Part): (r: string) {
    match p
    case Literal(text) => text
    case DollarSign => "$$"
    case TheMatch => "$&"
    case TextBefore => "$`"
    case TextAfter => "$'"
  }

  function PrintParts(ps: seq<Part>): (r: string) {
    if ps == [] then "" else PrintPart(ps[0]) + PrintParts(ps[1..])
  }

  /** What each stands for when the match is a `~` at the start of the token. */
  function PartsValue(ps: seq<Part>, after: string): (r: string) {
    if ps == [] then ""
    else
      (match ps[0]
       case Literal(text) => text
       case DollarSign => "$"
       case TheMatch => "~"
       case TextBefore => ""
       case TextAfter => after) + PartsValue(ps[1..], after)
  }

  /** No dollar of the text starts a pattern, when `rest` follows it. */
  predicate NoPatternIn(text: string, rest: string) {
    text == "" ||
    ((text[0] == '$' && |text + rest| >= 2 ==> (text + rest)[1] !in "$&`'") && NoPatternIn(text[1..], rest))
  }

  predicate AllPlain(ps: seq<Part>) {
    ps == [] ||
    ((ps[0].Literal? ==> NoPatternIn(ps[0].text, PrintParts(ps[1..]))) && AllPlain(ps[1..]))
  }

  lemma {:induction false} ReplaceLiteral(text: string, rest: string, after: string)
    requires NoPatternIn(text, rest)
    ensures Replacement(text + rest, after) == text + Replacement(rest, after)
  {
    if text == "" {
      assert text + rest == rest;
    } else {
      var c, more := text[..1], text[1..];
      assert text == c + more && (text + rest)[1..] == more + rest && [text[0]] == c;
      ReplaceLiteral(more, rest, after);
      if |text + rest| < 2 {
        assert text + rest == c && more == "" && rest == "";
      }
      Associative(c, more, Replacement(rest, after));
    }
  }

  lemma {:induction false} ReplacePattern(p: Part, rest: string, after: string)
    requires !p.Literal?
    ensures Replacement(PrintPart(p) + rest, after) == PartsValue([p], after) + Replacement(rest, after)
  {
    var s := PrintPart(p) + rest;
    assert s[0] == '$' && s[1] == PrintPart(p)[1] && s[2..] == rest;
    OnePart(p, after);
  }

  lemma {:induction false} OnePart(p: Part, after: string)
    ensures PartsValue([p], after) == match p
      case Literal(text) => text
      case DollarSign => "$"
      case TheMatch => "~"
      case TextBefore => ""
      case TextAfter => after
  {
    assert [p][0] == p && [p][1..] == [];
    assert PartsValue([], after) == "";
  }

  /** HOME as a replacement string: its dollar patterns are read as JavaScript defines them. */
  lemma {:induction false} ReplacementIsEvaluation(ps: seq<Part>, after: string)
    requires AllPlain(ps)
    ensures Replacement(PrintParts(ps), after) == PartsValue(ps, after)
  {
    if ps == [] {
    } else {
      var p, rest := ps[0], PrintParts(ps[1..]);
      ReplacementIsEvaluation(ps[1..], after);
      OnePart(p, after);
      if p.Literal? {
        ReplaceLiteral(p.text, rest, after);
      } else {
        ReplacePattern(p, rest, after);
      }
    }
  }

  /** Copying the rest only makes the result longer, and does so if there is a pattern for it. */
  lemma {:induction false} CopyLengthens(t: string)
    ensures |Replacement(t, "x")| >= |Replacement(t, "")|
    ensures CopiesRest(t) ==> |Replacement(t, "x")| > |Replacement(t, "")|
    decreases |t|
  {
    if |t| < 2 {
    } else {
      CopyLengthens(t[1..]);
      CopyLengthens(t[2..]);
    }
  }

  /** The replacement depends on the text after the match exactly when it copies it. */
  lemma {:induction false} CopiesRestIff(t: string)
    ensures CopiesRest(t) <==> exists a, b :: Replacement(t, a) != Replacement(t, b)
  {
    CopyLengthens(t);
    if !CopiesRest(t) {
      forall a, b
        ensures Replacement(t, a) == Replacement(t, b)
      {
        ReplacementIgnoresRest(t, a, b);
      }
    } else {
      assert Replacement(t, "x") != Replacement(t, "");
    }
  }

  lemma {:induction false} NothingOpenInText(q: string)
    requires '$' !in q
    ensures FromOpen(q) == ""
    decreases |q|
  {
    if q == "" {
    } else {
      assert q[0] in q && BraceName(q) == "";
      NothingOpenInText(q[1..]);
    }
  }

  /** A directory part without dollars is separable from every tail. */
  lemma {:induction false} PlainIsSeparable(p: string, r: string, env: Environment)
    requires '$' !in p && '$' !in Home(env)
    ensures Separable(p, r, env)
  {
    var t := ExpandTilde(p, Home(env));
    if HasTilde(p) {
      PlainReplacement(Home(env), p[1..]);
    }
    NoDollarUnchanged(t, env);
    NothingOpenInText(t);
  }

  lemma {:induction false} UnmatchedReference(s: string, env: Environment)
    requires s != "" && BraceAt(s) == None && '$' !in s[1..]
    ensures ExpandBraces(s, env) == s
  {
    NoDollarUnchanged(s[1..], env);
    assert s == s[..1] + s[1..];
  }

  /** The characters of `[A-Za-z0-9_]`, one by one. */
  lemma {:induction false} WordCharacters(c: char)
    ensures IsWord(c) <==>
      || c in {'A', 'B', 'C', 'D', 'E', 'F', 'G', 'H', 'I', 'J', 'K', 'L', 'M',
              'N', 'O', 'P', 'Q', 'R', 'S', 'T', 'U', 'V', 'W', 'X', 'Y', 'Z'}
      || c in {'a', 'b', 'c', 'd', 'e', 'f', 'g', 'h', 'i', 'j', 'k', 'l', 'm',
              'n', 'o', 'p', 'q', 'r', 's', 't', 'u', 'v', 'w', 'x', 'y', 'z'}
      || c in {'0', '1', '2', '3', '4', '5', '6', '7', '8', '9', '_'}
  {
    assert 'A' <= c <= 'Z' <==> 65 <= c as int <= 90;
    assert 'a' <= c <= 'z' <==> 97 <= c as int <= 122;
    assert '0' <= c <= '9' <==> 48 <= c as int <= 57;
  }
}

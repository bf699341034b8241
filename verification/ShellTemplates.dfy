/** What `shellExpand` computes: the value of a token read as text with variable references in it. */
module ShellTemplates {
  import opened Seqs
  import opened Js
  import opened ShellExpand

  datatype Piece = Text(text: string) | Variable(name: string)

  /** A default is itself text with plain references in it. */
  datatype Segment = Plain(piece: Piece) | Braced(name: string) | WithDefault(name: string, fallback: seq<Piece>)

  function PrintPiece(p: Piece): (r: string) {
    match p
    case Text(text) => text
    case Variable(name) => "$" + name
  }

  function PrintPieces(ps: seq<Piece>): (r: string) {
    if ps == [] then "" else PrintPiece(ps[0]) + PrintPieces(ps[1..])
  }

  function PrintSegment(g: Segment): (r: string) {
    match g
    case Plain(piece) => PrintPiece(piece)
    case Braced(name) => "${" + (name + "}")
    case WithDefault(name, fallback) => "${" + (name + (":-" + (PrintPieces(fallback) + "}")))
  }

  function Print(gs: seq<Segment>): (r: string) {
    if gs == [] then "" else PrintSegment(gs[0]) + Print(gs[1..])
  }

  function PieceValue(p: Piece, env: Environment): (r: string) {
    if p.Variable? && p.name in env then env[p.name] else PrintPiece(p)
  }

  function PiecesValue(ps: seq<Piece>, env: Environment): (r: string) {
    if ps == [] then "" else PieceValue(ps[0], env) + PiecesValue(ps[1..], env)
  }

  /** A set variable has its value; an unset one the value of its default, or else the reference as written. */
  function SegmentValue(g: Segment, env: Environment): (r: string) {
    match g
    case Plain(piece) => PieceValue(piece, env)
    case Braced(name) => if name in env then env[name] else PrintSegment(g)
    case WithDefault(name, fallback) => if name in env then env[name] else PiecesValue(fallback, env)
  }

  function Value(gs: seq<Segment>, env: Environment): (r: string) {
    if gs == [] then "" else SegmentValue(gs[0], env) + Value(gs[1..], env)
  }

  predicate IsName(s: string) {
    s != "" && forall c :: c in s ==> IsWord(c)
  }

  predicate StartsWord(s: string) {
    s != "" && IsWord(s[0])
  }

  /** No match of the first pass begins inside `t`, when `rest` follows it. */
  predicate NoNameIn(t: string, rest: string) {
    t == "" || (NameLength(t + rest) == 0 && NoNameIn(t[1..], rest))
  }

  /** No match of the second pass begins inside `t`, when `rest` follows it. */
  predicate NoBraceIn(t: string, rest: string) {
    t == "" || (BraceAt(t + rest).None? && NoBraceIn(t[1..], rest))
  }

  /** No reference begins inside text, names are names, and no name is continued by what follows it. */
  predicate Readable(p: Piece, next: string) {
    match p
    case Text(text) => NoNameIn(text, next)
    case Variable(name) => IsName(name) && !StartsWord(next)
  }

  predicate AllReadable(ps: seq<Piece>) {
    ps == [] || (Readable(ps[0], PrintPieces(ps[1..])) && AllReadable(ps[1..]))
  }

  /**
   * The segment can be told apart in the printed token. The second pass reads the first one's output,
   * so no match of it may begin inside text or the value of a plain variable; the value of a default
   * it skips, but that must not be empty or have a closing brace, as the pattern demands.
   */
  predicate Legible(g: Segment, next: string, env: Environment) {
    match g
    case Plain(piece) =>
      Readable(piece, next) && (IsSettled(piece, env) ==> NoBraceIn(PieceValue(piece, env), ExpandNames(next, env)))
    case Braced(name) => IsName(name)
    case WithDefault(name, fallback) =>
      && IsName(name) && AllReadable(fallback)
      && PiecesValue(fallback, env) != "" && '}' !in PiecesValue(fallback, env)
  }

  /** Text, or a variable that is set: any characters may stand there after the first pass. */
  predicate IsSettled(p: Piece, env: Environment) {
    p.Text? || p.name in env
  }

  predicate AllLegible(gs: seq<Segment>, env: Environment) {
    gs == [] || (Legible(gs[0], Print(gs[1..]), env) && AllLegible(gs[1..], env))
  }

  // ----- one segment through each pass

  lemma {:induction false} WordRun(name: string, rest: string)
    requires (forall c :: c in name ==> IsWord(c)) && (rest == "" || !IsWord(rest[0]))
    ensures WordLength(name + rest) == |name|
  {
    if name == "" {
      assert name + rest == rest;
    } else {
      assert name[0] in name && (name + rest)[1..] == name[1..] + rest;
      WordRun(name[1..], rest);
    }
  }

  lemma {:induction false} DollarFreeText(t: string, rest: string)
    requires '$' !in t
    ensures NoNameIn(t, rest) && NoBraceIn(t, rest)
  {
    if t == "" {
    } else {
      assert t[0] in t && (t + rest)[0] == t[0];
      DollarFreeText(t[1..], rest);
    }
  }

  lemma {:induction false} NamesSkip(t: string, rest: string, env: Environment)
    requires NoNameIn(t, rest)
    ensures ExpandNames(t + rest, env) == t + ExpandNames(rest, env)
  {
    if t == "" {
      assert t + rest == rest;
    } else {
      var c, more := t[..1], t[1..];
      Cut(t, rest, 1);
      NamesSkip(more, rest, env);
      assert c + more == t;
      Associative(c, more, ExpandNames(rest, env));
    }
  }

  lemma {:induction false} NamesSkipText(t: string, rest: string, env: Environment)
    requires '$' !in t
    ensures ExpandNames(t + rest, env) == t + ExpandNames(rest, env)
  {
    DollarFreeText(t, rest);
    NamesSkip(t, rest, env);
  }

  lemma {:induction false} NameLengthExtend(x: string, tail: string)
    requires x != "" && NameLength(x) == 0 && !StartsWord(tail)
    ensures NameLength(x + tail) == 0
  {
    assert (x + tail)[1..] == x[1..] + tail;
    assert x[1..] == "" ==> x[1..] + tail == tail;
  }

  lemma {:induction false} NoNameExtend(t: string, rest: string, tail: string)
    requires NoNameIn(t, rest) && !StartsWord(tail)
    ensures NoNameIn(t, rest + tail)
  {
    if t == "" {
    } else {
      Associative(t, rest, tail);
      NameLengthExtend(t + rest, tail);
      NoNameExtend(t[1..], rest, tail);
    }
  }

  lemma {:induction false} NamesAtVariable(name: string, rest: string, env: Environment)
    requires IsName(name) && !StartsWord(rest)
    ensures ExpandNames("$" + name + rest, env)
         == (if name in env then env[name] else "$" + name) + ExpandNames(rest, env)
  {
    var s := "$" + name + rest;
    assert s[1..] == name + rest;
    WordRun(name, rest);
    var k := |name| + 1;
    assert NameStep(s) == k;
    assert s[..k] == "$" + name && s[k..] == rest && ("$" + name)[1..] == name;
  }

  lemma {:induction false} NamesSkipBrace(body: string, rest: string, env: Environment)
    requires '$' !in body
    ensures ExpandNames("${" + body + rest, env) == "${" + body + ExpandNames(rest, env)
  {
    var s := "${" + body + rest;
    var tail := "{" + body;
    assert s[0] == '$' && s[1..] == tail + rest && !IsWord(s[1]);
    assert NameLength(s) == 0;
    NamesSkipText(tail, rest, env);
    assert s[..1] == "$";
    assert ExpandNames(s, env) == "$" + (tail + ExpandNames(rest, env));
    Associative("$", tail, ExpandNames(rest, env));
    assert "$" + tail == "${" + body;
  }

  lemma {:induction false} BracesSkip(t: string, rest: string, env: Environment)
    requires NoBraceIn(t, rest)
    ensures ExpandBraces(t + rest, env) == t + ExpandBraces(rest, env)
  {
    if t == "" {
      assert t + rest == rest;
    } else {
      var c, more := t[..1], t[1..];
      Cut(t, rest, 1);
      BracesSkip(more, rest, env);
      assert c + more == t;
      Associative(c, more, ExpandBraces(rest, env));
    }
  }

  lemma {:induction false} BracesSkipVariable(name: string, rest: string, env: Environment)
    requires IsName(name)
    ensures ExpandBraces("$" + name + rest, env) == "$" + name + ExpandBraces(rest, env)
  {
    var s := "$" + name;
    NameHasNoDollar(name);
    DollarFreeText(name, rest);
    assert name[0] in name && IsWord(name[0]) && (s + rest)[1] == name[0] && s[1..] == name;
    assert BraceName(s + rest) == "";
    BracesSkip(s, rest, env);
  }

  lemma {:induction false} BraceNameRead(name: string, rest: string)
    requires IsName(name) && !StartsWord(rest)
    ensures BraceName("${" + (name + rest)) == name && ("${" + (name + rest))[|name| + 2..] == rest
  {
    var s := "${" + (name + rest);
    assert s[2..] == name + rest;
    WordRun(name, rest);
    assert s[2..][..|name|] == name;
  }

  lemma {:induction false} BracesAtBraced(name: string, rest: string, env: Environment)
    requires IsName(name)
    ensures ExpandBraces("${" + (name + "}") + rest, env)
         == (if name in env then env[name] else "${" + (name + "}")) + ExpandBraces(rest, env)
  {
    var s := "${" + (name + "}") + rest;
    assert s == "${" + (name + ("}" + rest));
    BraceNameRead(name, "}" + rest);
    BraceConsumed(s, "${" + (name + "}"), rest, env);
  }

  lemma {:induction false} BracesAtDefault(name: string, fallback: string, rest: string, env: Environment)
    requires IsName(name) && fallback != "" && '}' !in fallback
    ensures var m := "${" + (name + (":-" + (fallback + "}")));
      ExpandBraces(m + rest, env) == (if name in env then env[name] else fallback) + ExpandBraces(rest, env)
  {
    var m := "${" + (name + (":-" + (fallback + "}")));
    DefaultReassociates(name, fallback, rest);
    DefaultBrace(name, fallback, rest);
    BraceConsumed(m + rest, m, rest, env);
  }

  lemma {:induction false} DefaultBrace(name: string, fallback: string, rest: string)
    requires IsName(name) && fallback != "" && '}' !in fallback
    ensures var s := "${" + (name + (":-" + (fallback + ("}" + rest))));
      && BraceAt(s) == Some(Brace(name, Body(Some(fallback), |fallback| + 3)))
      && BraceStep(s) == |name| + |fallback| + 5
  {
    BraceNameRead(name, ":-" + (fallback + ("}" + rest)));
    DefaultBody(fallback, rest);
  }

  lemma {:induction false} DefaultReassociates(name: string, fallback: string, rest: string)
    ensures ("${" + (name + (":-" + (fallback + "}")))) + rest == "${" + (name + (":-" + (fallback + ("}" + rest))))
  {
  }

  // ----- whole tokens

  /** What the first pass leaves of a segment. */
  function AfterNames(g: Segment, env: Environment): (r: Segment) {
    match g
    case Plain(piece) => if piece.Variable? && piece.name in env then Plain(Text(env[piece.name])) else g
    case Braced(_) => g
    case WithDefault(name, fallback) => WithDefault(name, [Text(PiecesValue(fallback, env))])
  }

  function AllAfterNames(gs: seq<Segment>, env: Environment): (r: seq<Segment>) {
    if gs == [] then [] else [AfterNames(gs[0], env)] + AllAfterNames(gs[1..], env)
  }

  lemma {:induction false} NamesAtPiece(p: Piece, rest: string, env: Environment)
    requires Readable(p, rest)
    ensures ExpandNames(PrintPiece(p) + rest, env) == PieceValue(p, env) + ExpandNames(rest, env)
  {
    match p
    case Text(text) => NamesSkip(text, rest, env);
    case Variable(name) => NamesAtVariable(name, rest, env);
  }

  lemma {:induction false} ReadableExtend(p: Piece, next: string, tail: string)
    requires Readable(p, next) && !StartsWord(tail)
    ensures Readable(p, next + tail)
  {
    match p
    case Text(text) => NoNameExtend(text, next, tail);
    case Variable(_) => assert next == "" ==> next + tail == tail;
  }

  lemma {:induction false} NamesAtPieces(ps: seq<Piece>, rest: string, env: Environment)
    requires AllReadable(ps) && !StartsWord(rest)
    ensures ExpandNames(PrintPieces(ps) + rest, env) == PiecesValue(ps, env) + ExpandNames(rest, env)
  {
    if ps == [] {
      assert PrintPieces(ps) + rest == rest;
    } else {
      var first, more := PrintPiece(ps[0]), PrintPieces(ps[1..]);
      Associative(first, more, rest);
      ReadableExtend(ps[0], more, rest);
      NamesAtPiece(ps[0], more + rest, env);
      NamesAtPieces(ps[1..], rest, env);
      Associative(PieceValue(ps[0], env), PiecesValue(ps[1..], env), ExpandNames(rest, env));
    }
  }

  lemma {:induction false} NamesAtDefault(name: string, fallback: seq<Piece>, rest: string, env: Environment)
    requires IsName(name) && AllReadable(fallback)
    ensures ExpandNames("${" + (name + (":-" + (PrintPieces(fallback) + "}"))) + rest, env)
         == "${" + (name + (":-" + (PiecesValue(fallback, env) + "}"))) + ExpandNames(rest, env)
  {
    var open, tail := name + ":-", "}" + rest;
    NameHasNoDollar(name);
    Regroup(name, PrintPieces(fallback), rest);
    NamesSkipBrace(open, PrintPieces(fallback) + tail, env);
    NamesAtPieces(fallback, tail, env);
    NamesSkipText("}", rest, env);
    Regroup(name, PiecesValue(fallback, env), ExpandNames(rest, env));
  }

  lemma {:induction false} Regroup(name: string, x: string, rest: string)
    ensures "${" + (name + (":-" + (x + "}"))) + rest == "${" + (name + ":-") + (x + ("}" + rest))
  {
  }

  lemma {:induction false} FirstPassSegment(g: Segment, rest: string, env: Environment)
    requires Legible(g, rest, env)
    ensures ExpandNames(PrintSegment(g) + rest, env) == PrintSegment(AfterNames(g, env)) + ExpandNames(rest, env)
  {
    match g
    case Plain(piece) => NamesAtPiece(piece, rest, env);
    case Braced(name) =>
      NameHasNoDollar(name);
      NamesSkipBrace(name + "}", rest, env);
    case WithDefault(name, fallback) =>
      NamesAtDefault(name, fallback, rest, env);
      OneText(PiecesValue(fallback, env));
  }

  lemma {:induction false} OneText(x: string)
    ensures PrintPieces([Text(x)]) == x
  {
    assert [Text(x)][1..] == [];
  }

  lemma {:induction false} NameHasNoDollar(name: string)
    requires IsName(name)
    ensures '$' !in name
  {
  }

  lemma {:induction false} FirstPass(gs: seq<Segment>, env: Environment)
    requires AllLegible(gs, env)
    ensures ExpandNames(Print(gs), env) == Print(AllAfterNames(gs, env))
  {
    if gs == [] {
    } else {
      FirstPassSegment(gs[0], Print(gs[1..]), env);
      FirstPass(gs[1..], env);
    }
  }

  lemma {:induction false} SecondPassSegment(g: Segment, rest: string, next: string, env: Environment)
    requires Legible(g, next, env) && rest == ExpandNames(next, env)
    ensures ExpandBraces(PrintSegment(AfterNames(g, env)) + rest, env) == SegmentValue(g, env) + ExpandBraces(rest, env)
  {
    match g
    case Plain(piece) =>
      if IsSettled(piece, env) {
        BracesSkip(PieceValue(piece, env), rest, env);
      } else {
        BracesSkipVariable(piece.name, rest, env);
      }
    case Braced(name) => BracesAtBraced(name, rest, env);
    case WithDefault(name, fallback) =>
      OneText(PiecesValue(fallback, env));
      BracesAtDefault(name, PiecesValue(fallback, env), rest, env);
  }

  lemma {:induction false} SecondPass(gs: seq<Segment>, env: Environment)
    requires AllLegible(gs, env)
    ensures ExpandBraces(Print(AllAfterNames(gs, env)), env) == Value(gs, env)
  {
    if gs == [] {
    } else {
      var rest := AllAfterNames(gs[1..], env);
      assert AllAfterNames(gs, env)[0] == AfterNames(gs[0], env) && AllAfterNames(gs, env)[1..] == rest;
      FirstPass(gs[1..], env);
      SecondPassSegment(gs[0], Print(rest), Print(gs[1..]), env);
      SecondPass(gs[1..], env);
    }
  }

  /** Expansion is evaluation: the two passes give a printed token the value of its segments. */
  lemma {:induction false} ExpansionIsEvaluation(gs: seq<Segment>, env: Environment)
    requires AllLegible(gs, env)
    ensures ExpandVariables(Print(gs), env) == Value(gs, env)
  {
    FirstPass(gs, env);
    SecondPass(gs, env);
  }

  /**
   * Without that condition the property fails: a plain variable whose value is a braced reference is
   * expanded twice.
   */
  lemma {:induction false} ValueIsRescanned(a: string, b: string, env: Environment)
    requires IsName(a) && IsName(b) && a in env && b in env && env[a] == "${" + (b + "}")
    ensures ExpandVariables(Print([Plain(Variable(a))]), env) == env[b]
    ensures Value([Plain(Variable(a))], env) == env[a]
  {
    var gs := [Plain(Variable(a))];
    assert gs[0] == Plain(Variable(a)) && gs[1..] == [];
    assert Print([]) == "" && Value([], env) == "";
    assert Print(gs) == "$" + a + "" && Value(gs, env) == env[a] + "";
    NamesAtVariable(a, "", env);
    assert ExpandNames("", env) == "" && ExpandBraces("", env) == "";
    BracesAtBraced(b, "", env);
    assert env[a] + "" == "${" + (b + "}") + "" && env[b] + "" == env[b];
  }

  /** A default must not be empty: such a reference stays as it is written, set or not. */
  lemma {:induction false} EmptyDefaultStays(name: string, env: Environment)
    requires IsName(name)
    ensures ExpandBraces("${" + (name + ":-}"), env) == "${" + (name + ":-}")
  {
    EmptyDefaultUnmatched(name);
    OneDollar(name);
    UnmatchedReference("${" + (name + ":-}"), env);
  }

  lemma {:induction false} EmptyDefaultUnmatched(name: string)
    requires IsName(name)
    ensures BraceAt("${" + (name + ":-}")) == None
  {
    BraceNameRead(name, ":-}");
    EmptyBody();
  }

  lemma {:induction false} OneDollar(name: string)
    requires IsName(name)
    ensures '$' !in ("${" + (name + ":-}"))[1..]
  {
    NameHasNoDollar(name);
    assert ("${" + (name + ":-}"))[1..] == "{" + (name + ":-}");
  }

  lemma {:induction false} EmptyBody()
    ensures BodyAt(":-}") == None
  {
    assert ":-}"[2..] == "}";
    IndexOfUnique("}", '}', 0);
  }

  /** Some environment makes the second pass lengthen a text in which a match begins. */
  lemma {:induction false} MatchLengthens(t: string) returns (env: Environment)
    requires !NoBraceIn(t, "")
    ensures |ExpandBraces(t, env)| > |t|
  {
    assert t + "" == t;
    if BraceAt(t).Some? {
      env := map[BraceName(t) := t + "x"];
    } else {
      env := MatchLengthens(t[1..]);
    }
  }

  /**
   * The condition is exact: a value comes through the second pass unchanged, whatever the environment,
   * if and only if no match begins in it.
   */
  lemma {:induction false} UnscannedIff(t: string)
    ensures (forall env :: ExpandBraces(t, env) == t) <==> NoBraceIn(t, "")
  {
    if NoBraceIn(t, "") {
      forall env: Environment
        ensures ExpandBraces(t, env) == t
      {
        BracesSkip(t, "", env);
        assert t + "" == t;
      }
    } else {
      var env := MatchLengthens(t);
      assert ExpandBraces(t, env) != t;
    }
  }

  lemma {:induction false} TildeExpansion(gs: seq<Segment>, env: Environment)
    requires AllLegible([Plain(Text("/"))] + gs, env) && '$' !in Home(env)
    ensures Expand("~/" + Print(gs), env) == Home(env) + "/" + Value(gs, env)
  {
    var s := "~/" + Print(gs);
    var all := [Plain(Text(Home(env))), Plain(Text("/"))] + gs;
    PlainReplacement(Home(env), s[1..]);
    assert s[1..] == "/" + Print(gs);
    assert all[1..] == [Plain(Text("/"))] + gs && all[1..][1..] == gs;
    assert ([Plain(Text("/"))] + gs)[1..] == gs;
    assert ExpandTilde(s, Home(env)) == Print(all);
    DollarFreeText(Home(env), Print(all[1..]));
    DollarFreeText(Home(env), ExpandNames(Print(all[1..]), env));
    ExpansionIsEvaluation(all, env);
    assert Value(all, env) == Home(env) + ("/" + Value(gs, env));
    Associative(Home(env), "/", Value(gs, env));
  }

  /** With a leading tilde, the value of HOME comes first. */
  lemma {:induction false} TildeIsHome(gs: seq<Segment>, env: Environment)
    requires AllLegible([Plain(Text("/"))] + gs, env) && "HOME" in env && '$' !in env["HOME"]
    ensures Expand("~/" + Print(gs), env) == env["HOME"] + "/" + Value(gs, env)
  {
    TildeExpansion(gs, env);
  }

  /** Without HOME the tilde stays. */
  lemma {:induction false} TildeStays(gs: seq<Segment>, env: Environment)
    requires AllLegible([Plain(Text("/"))] + gs, env) && "HOME" !in env
    ensures Expand("~/" + Print(gs), env) == "~/" + Value(gs, env)
  {
    TildeExpansion(gs, env);
    Associative("~", "/", Value(gs, env));
  }

  /** The same for a tilde alone; before anything but a slash it is text. */
  lemma {:induction false} BareTildeIsHome(env: Environment, user: string)
    requires "HOME" in env ==> '$' !in env["HOME"]
    requires user != "" && user[0] != '/' && '$' !in user
    ensures Expand("~", env) == if "HOME" in env then env["HOME"] else "~"
    ensures Expand("~" + user, env) == "~" + user
  {
    var home := if "HOME" in env then env["HOME"] else "~";
    PlainReplacement(home, "");
    assert "~"[1..] == "" && home + "" == home;
    NoDollarUnchanged(home, env);
    assert ExpandTilde("~", Home(env)) == home;
    assert ("~" + user)[1] == user[0] && !HasTilde("~" + user);
    NoDollarUnchanged("~" + user, env);
  }
}

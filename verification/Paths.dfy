/** The directory a path token refers to, and when a listing of it may be reused. */
module Paths {
  import opened Seqs
  import opened Js
  import opened Sessions
  import opened ShellExpand
  import opened ShellTemplates

  function EnsureTrailingSlash(s: string): (r: string)
    ensures IsDirectory(r) && s <= r <= s + "/"
    ensures IsDirectory(s) ==> r == s
  {
    if EndsWith(s, '/') then s else s + "/"
  }

  /** Where the directory part `d` of a token leads from `base`. */
  function Resolve(base: string, d: string): (r: string) {
    if d == "" then EnsureTrailingSlash(base)
    else if d[0] == '/' then d
    else EnsureTrailingSlash(base) + d
  }

  /** `getCurrentInsertedDirectory`; a missing working directory is `None`. */
  function CurrentDirectory(cwd: Option<string>, term: string, env: Environment): (r: string) {
    match cwd
    case None => "/"
    case Some(base) => Resolve(base, Through(Expand(term, env), '/'))
  }

  /** `filepaths.trigger`. */
  predicate PathTrigger(new_: string, old_: string) {
    var o, p := LastIndexOf(new_, '/'), LastIndexOf(old_, '/');
    if o != p then true
    else if o == -1 && p == -1 then false
    else new_[..o] != old_[..p]
  }

  ghost predicate SameDirectoryPart(a: string, b: string) {
    Through(a, '/') == Through(b, '/')
  }

  /** A token whose directory does not depend on what follows its last slash. */
  predicate Settled(term: string) {
    term != "~" && '$' !in After(term, '/') && '}' !in After(term, '/')
  }

  // ----- what the trigger observes

  /** The trigger stays quiet exactly when the text through the last slash is unchanged. */
  lemma {:induction false} TriggerIffDirectoryPartChanged(new_: string, old_: string)
    ensures PathTrigger(new_, old_) <==> !SameDirectoryPart(new_, old_)
  {
  }

  lemma {:induction false} QuietTails(p: string, r: string, r': string)
    requires IsDirectory(p) && '/' !in r && '/' !in r'
    ensures !PathTrigger(p + r', p + r)
  {
    ThroughUnique(p, r, '/');
    ThroughUnique(p, r', '/');
    TriggerIffDirectoryPartChanged(p + r', p + r);
  }

  /** Over every run of arbitrary edits the remembered rows belong to the current directory part. */
  lemma {:induction false} RunKeepsDirectoryPart(s: Session, terms: seq<string>)
    requires SameDirectoryPart(s.computedFor, s.term)
    ensures var r := Run(PathTrigger, s, terms); SameDirectoryPart(r.computedFor, r.term)
  {
    var rel := (a, b) => SameDirectoryPart(a, b);
    forall a, b | !PathTrigger(b, a)
      ensures rel(a, b)
    {
      TriggerIffDirectoryPartChanged(b, a);
    }
    AnyRun(s.term, terms);
    RunKeeps(PathTrigger, AnyEdit, rel, s, terms);
  }

  // ----- the directory of a token, from its two parts

  lemma {:induction false} DirectoryOfParts(base: string, p: string, r: string, env: Environment)
    requires IsDirectory(p) && !CopiesRest(Home(env)) && Separable(p, r, env)
    ensures CurrentDirectory(Some(base), p + r, env)
         == Resolve(base, Expand(p, env) + Through(ExpandVariables(r, env), '/'))
    ensures IsDirectory(Expand(p, env))
  {
    ExpandSplits(p, r, env);
    ThroughAppend(Expand(p, env), ExpandVariables(r, env), '/');
  }

  lemma {:induction false} SettledDirectory(base: string, term: string, env: Environment)
    requires Settled(term) && !CopiesRest(Home(env))
    ensures var p := Through(term, '/');
            var d := if p == "" then "" else Expand(p, env);
            CurrentDirectory(Some(base), term, env) == Resolve(base, d)
  {
    var p, r := Through(term, '/'), After(term, '/');
    ThroughAfter(term, '/');
    NoDollarUnchanged(r, env);
    if p == "" {
      assert term == r;
      assert Expand(term, env) == term;
    } else {
      ExpandKeepsTail(p, r, env);
      ThroughUnique(Expand(p, env), r, '/');
    }
  }

  /**
   * Which directory a token without variables means: absolute, below HOME, or below the working
   * directory. `below` is the working directory with one slash at its end.
   */
  lemma {:induction false} PlainTokenDirectory(base: string, term: string, env: Environment)
    requires '$' !in term && '}' !in term && term != "~" && ("HOME" in env ==> '$' !in env["HOME"])
    ensures var p, below := Through(term, '/'), if EndsWith(base, '/') then base else base + "/";
      CurrentDirectory(Some(base), term, env) ==
        if p != "" && p[0] == '/' then p
        else if |p| >= 2 && p[..2] == "~/" && "HOME" in env then
          if env["HOME"] != "" && env["HOME"][0] == '/' then env["HOME"] + p[1..]
          else if env["HOME"] == "" then p[1..]
          else below + (env["HOME"] + p[1..])
        else below + p
  {
    var p := Through(term, '/');
    assert p <= term && forall c :: c in p ==> c in term;
    DollarFreeHome(Home(env));
    SettledDirectory(base, term, env);
    if p == "" {
      assert EnsureTrailingSlash(base) + "" == EnsureTrailingSlash(base);
    } else {
      ThroughAfter(term, '/');
      PlainPart(p, env);
    }
  }

  /** What the directory part of such a token expands to. */
  lemma {:induction false} PlainPart(p: string, env: Environment)
    requires IsDirectory(p) && '$' !in p && '$' !in Home(env)
    ensures Expand(p, env) == if |p| >= 2 && p[..2] == "~/" && "HOME" in env then env["HOME"] + p[1..] else p
    ensures |p| >= 2 && p[..2] == "~/" ==> p[0] == '~' && p[1..][0] == '/'
  {
    PlainReplacement(Home(env), p[1..]);
    NoDollarUnchanged(ExpandTilde(p, Home(env)), env);
    TildePart(p);
  }

  lemma {:induction false} TildePart(p: string)
    requires IsDirectory(p)
    ensures HasTilde(p) <==> |p| >= 2 && p[..2] == "~/"
    ensures HasTilde(p) ==> p[1] == '/' && "~" + p[1..] == p
  {
  }

  /** Without a working directory every token means the root. */
  lemma {:induction false} NoWorkingDirectory(term: string, env: Environment)
    ensures CurrentDirectory(None, term, env) == "/"
  {
  }

  // ----- main results

  /**
   * Path reuse is sound over every run of arbitrary edits: whenever the computed and the current
   * token are settled, the directory that was listed is the directory of the current token.
   */
  lemma {:induction false} ReuseIsSound(cwd: Option<string>, env: Environment, first: string, terms: seq<string>)
    requires !CopiesRest(Home(env))
    ensures var r := Run(PathTrigger, Start(first), terms);
            Settled(r.computedFor) && Settled(r.term) ==>
              CurrentDirectory(cwd, r.computedFor, env) == CurrentDirectory(cwd, r.term, env)
  {
    var r := Run(PathTrigger, Start(first), terms);
    RunKeepsDirectoryPart(Start(first), terms);
    if Settled(r.computedFor) && Settled(r.term) && cwd.Some? {
      SettledDirectory(cwd.value, r.computedFor, env);
      SettledDirectory(cwd.value, r.term, env);
    }
  }

  /** A dollar-free HOME, the usual case, is within the hypothesis of every result here. */
  lemma {:induction false} ReuseIsSoundForPlainHome(cwd: Option<string>, env: Environment,
      first: string, terms: seq<string>)
    requires '$' !in Home(env)
    ensures var r := Run(PathTrigger, Start(first), terms);
            Settled(r.computedFor) && Settled(r.term) ==>
              CurrentDirectory(cwd, r.computedFor, env) == CurrentDirectory(cwd, r.term, env)
  {
    DollarFreeHome(Home(env));
    ReuseIsSound(cwd, env, first, terms);
  }

  /**
   * Exactly when reuse is right, for tails that may contain variables: two tokens below the same
   * non-empty directory part, which never trigger against each other, name the same directory if
   * and only if the expansions of their tails agree through their last slash.
   */
  lemma {:induction false} ReuseExact(base: string, env: Environment, p: string, r: string, r': string)
    requires IsDirectory(p) && '/' !in r && '/' !in r'
    requires !CopiesRest(Home(env)) && Separable(p, r, env) && Separable(p, r', env)
    ensures !PathTrigger(p + r', p + r)
    ensures CurrentDirectory(Some(base), p + r, env) == CurrentDirectory(Some(base), p + r', env)
       <==> Through(ExpandVariables(r, env), '/') == Through(ExpandVariables(r', env), '/')
  {
    QuietTails(p, r, r');
    DirectoryOfParts(base, p, r, env);
    DirectoryOfParts(base, p, r', env);
    ResolveInjective(base, Expand(p, env), Through(ExpandVariables(r, env), '/'),
                     Through(ExpandVariables(r', env), '/'));
  }

  predicate IsAbsolute(d: string) {
    d != "" && d[0] == '/'
  }

  /** The directory parts are equal, or one is absolute and is where the other leads from `base`. */
  predicate SameDirectory(base: string, d: string, d': string) {
    || d == d'
    || (IsAbsolute(d) && !IsAbsolute(d') && d == EnsureTrailingSlash(base) + d')
    || (IsAbsolute(d') && !IsAbsolute(d) && d' == EnsureTrailingSlash(base) + d)
  }

  lemma {:induction false} ResolveAgreesIff(base: string, d: string, d': string)
    ensures Resolve(base, d) == Resolve(base, d') <==> SameDirectory(base, d, d')
  {
    var b := EnsureTrailingSlash(base);
    assert b + "" == b && (b + d)[|b|..] == d && (b + d')[|b|..] == d';
  }

  /**
   * For any two tokens at all: same directory if and only if their expansions agree through the last
   * slash, up to one being absolute. Tokens without a slash, the bare tilde included, never trigger.
   */
  lemma {:induction false} ReuseExactAnywhere(base: string, env: Environment, term: string, term': string)
    ensures '/' !in term && '/' !in term' ==> !PathTrigger(term', term)
    ensures CurrentDirectory(Some(base), term, env) == CurrentDirectory(Some(base), term', env)
       <==> SameDirectory(base, Through(Expand(term, env), '/'), Through(Expand(term', env), '/'))
  {
    if '/' !in term && '/' !in term' {
      QuietAtTop(term, term');
    }
    ResolveAgreesIff(base, Through(Expand(term, env), '/'), Through(Expand(term', env), '/'));
  }

  lemma {:induction false} QuietAtTop(term: string, term': string)
    requires '/' !in term && '/' !in term'
    ensures !PathTrigger(term', term)
  {
    assert LastIndexOf(term, '/') == -1 && LastIndexOf(term', '/') == -1;
  }

  lemma {:induction false} ResolveInjective(base: string, x: string, d: string, d': string)
    requires x != ""
    ensures Resolve(base, x + d) == Resolve(base, x + d') <==> d == d'
  {
    var y := if x[0] == '/' then x else EnsureTrailingSlash(base) + x;
    ResolveSplits(base, x, d);
    ResolveSplits(base, x, d');
    assert (y + d)[|y|..] == d && (y + d')[|y|..] == d';
  }

  lemma {:induction false} ResolveSplits(base: string, x: string, d: string)
    requires x != ""
    ensures Resolve(base, x + d) == (if x[0] == '/' then x else EnsureTrailingSlash(base) + x) + d
  {
  }

  /** The directory part that a bare tilde expands to: that of HOME, so its parent. */
  function TildeParent(env: Environment): (d: string) {
    Through(ExpandVariables(Replacement(Home(env), ""), env), '/')
  }

  /**
   * The bare tilde: it never triggers against another slash-free token, yet it names the parent of
   * HOME. For a token without variables, reusing either listing for the other is right only when
   * that parent is the working directory, or HOME has no slash or is not set.
   */
  lemma {:induction false} BareTildeExact(base: string, env: Environment, term: string)
    requires '/' !in term && term != "~"
    ensures !PathTrigger(term, "~") && !PathTrigger("~", term)
    ensures CurrentDirectory(Some(base), "~", env) == CurrentDirectory(Some(base), term, env)
       <==> SameDirectory(base, TildeParent(env), Through(ExpandVariables(term, env), '/'))
    ensures '$' !in Home(env) ==> TildeParent(env) == Through(Home(env), '/')
    ensures '$' !in term ==>
      (CurrentDirectory(Some(base), "~", env) == CurrentDirectory(Some(base), term, env) <==>
         var h := TildeParent(env); h == "" || (IsAbsolute(h) && h == EnsureTrailingSlash(base)))
  {
    ReuseExactAnywhere(base, env, "~", term);
    TildeExpands(env);
    assert Expand(term, env) == ExpandVariables(term, env);
    if '$' !in term {
      NoDollarUnchanged(term, env);
      NoDirectory(base, TildeParent(env), term);
    }
  }

  lemma {:induction false} TildeExpands(env: Environment)
    ensures Through(Expand("~", env), '/') == TildeParent(env)
    ensures '$' !in Home(env) ==> TildeParent(env) == Through(Home(env), '/')
  {
    var home := Replacement(Home(env), "");
    assert "~"[1..] == "" && home + "" == home;
    assert ExpandTilde("~", Home(env)) == home;
    if '$' !in Home(env) {
      PlainReplacement(Home(env), "");
      NoDollarUnchanged(Home(env), env);
    }
  }

  lemma {:induction false} NoDirectory(base: string, h: string, term: string)
    requires '/' !in term
    ensures SameDirectory(base, h, Through(term, '/')) <==>
      h == "" || (IsAbsolute(h) && h == EnsureTrailingSlash(base))
  {
    ThroughUnique("", term, '/');
    assert "" + term == term && EnsureTrailingSlash(base) + "" == EnsureTrailingSlash(base);
  }

  /** The soundness claim without its side condition is false: typing past a bare tilde. */
  lemma {:induction false} BareTildeIsStale(base: string, env: Environment, x: string)
    requires x != "" && '/' !in x && '$' !in x && '$' !in Home(env) && IsAbsolute(Home(env))
    requires Through(Home(env), '/') != EnsureTrailingSlash(base)
    ensures var r := Run(PathTrigger, Start("~"), ["~" + x]);
            && r == Session("~" + x, "~")
            && CurrentDirectory(Some(base), r.computedFor, env) != CurrentDirectory(Some(base), r.term, env)
  {
    BareTildeExact(base, env, "~" + x);
    OneQuietKeystroke("~", "~" + x);
    assert LastIndexOf(Home(env), '/') >= 0;
  }

  lemma {:induction false} OneQuietKeystroke(first: string, next: string)
    requires !PathTrigger(next, first)
    ensures Run(PathTrigger, Start(first), [next]) == Session(next, first)
  {
    var s := Advance(PathTrigger, Start(first), next);
    assert Run(PathTrigger, Start(first), [next]) == Run(PathTrigger, s, []);
  }

  /** Typing the name of a variable does not trigger, but leads below its value. */
  lemma {:induction false} TypedNameIsStale(base: string, env: Environment, name: string)
    requires IsName(name) && name in env && '$' !in env[name] && '/' in env[name] && !IsAbsolute(env[name])
    ensures var r := Run(PathTrigger, Start("$"), ["$" + name]);
            && r == Session("$" + name, "$")
            && CurrentDirectory(Some(base), r.computedFor, env) == EnsureTrailingSlash(base)
            && CurrentDirectory(Some(base), r.term, env) == EnsureTrailingSlash(base) + Through(env[name], '/')
            && Through(env[name], '/') != ""
  {
    NameExpands(env, name);
    LoneDollar(env);
    QuietName(name);
    assert Through(env[name], '/')[0] == env[name][0];
  }

  lemma {:induction false} QuietName(name: string)
    requires IsName(name)
    ensures Run(PathTrigger, Start("$"), ["$" + name]) == Session("$" + name, "$")
  {
    NameHasNoSlash(name);
    assert LastIndexOf("$" + name, '/') == -1 && LastIndexOf("$", '/') == -1;
    OneQuietKeystroke("$", "$" + name);
  }

  lemma {:induction false} NameExpands(env: Environment, name: string)
    requires IsName(name) && name in env && '$' !in env[name] && '/' in env[name]
    ensures Expand("$" + name, env) == env[name] && Through(env[name], '/') != ""
  {
    var term, value := "$" + name, env[name];
    NamesAtVariable(name, "", env);
    assert term + "" == term && value + "" == value && ExpandNames("", env) == "";
    NoDollarUnchanged(value, env);
    assert !HasTilde(term);
    var i :| 0 <= i < |value| && value[i] == '/';
    assert LastIndexOf(value, '/') >= i;
  }

  lemma {:induction false} NameHasNoSlash(name: string)
    requires IsName(name)
    ensures '/' !in "$" + name
  {
  }

  lemma {:induction false} LoneDollar(env: Environment)
    ensures Expand("$", env) == "$" && Through("$", '/') == ""
  {
    assert "$"[1..] == "" && NameLength("$") == 0 && BraceAt("$") == None;
    assert ExpandNames("", env) == "" && ExpandBraces("", env) == "";
    assert ExpandNames("$", env) == "$" && ExpandBraces("$", env) == "$";
  }

  // ----- a default left open before the slash

  /** The directory part leaves a default open: what follows the slash may close it. */
  predicate LeavesOpen(p: string, env: Environment) {
    IsDirectory(p) && FromOpen(ForBraces(p, env)) != ""
  }

  lemma {:induction false} OpenDirectory(p: string, env: Environment)
    requires LeavesOpen(p, env) && !CopiesRest(Home(env))
    ensures var o := FromOpen(ForBraces(p, env));
      o == "${" + (BraceName(o) + (":-" + OpenText(o))) && IsDirectory(o) && IsDirectory(OpenText(o))
  {
    var q := ForBraces(p, env);
    ExpandAnyTail(p, "", env);
    OpenParts(FromOpen(q));
  }

  lemma {:induction false} DirectoryAtOpen(base: string, p: string, r: string, env: Environment)
    requires LeavesOpen(p, env) && !CopiesRest(Home(env))
    ensures var q := ForBraces(p, env);
      CurrentDirectory(Some(base), p + r, env)
      == Resolve(base, Through(BeforeOpen(q, env) + ExpandOpen(FromOpen(q), ExpandNames(r, env), env), '/'))
  {
    ExpandAnyTail(p, r, env);
  }

  /** Exactly when reuse is right below a directory part that leaves a default open, for all tails. */
  lemma {:induction false} ReuseExactOpen(base: string, env: Environment, p: string, r: string, r': string)
    requires LeavesOpen(p, env) && !CopiesRest(Home(env)) && '/' !in r && '/' !in r'
    ensures !PathTrigger(p + r', p + r)
    ensures var b, o := BeforeOpen(ForBraces(p, env), env), FromOpen(ForBraces(p, env));
      CurrentDirectory(Some(base), p + r, env) == CurrentDirectory(Some(base), p + r', env) <==>
        SameDirectory(base, Through(b + ExpandOpen(o, ExpandNames(r, env), env), '/'),
                            Through(b + ExpandOpen(o, ExpandNames(r', env), env), '/'))
  {
    var b, o := BeforeOpen(ForBraces(p, env), env), FromOpen(ForBraces(p, env));
    QuietTails(p, r, r');
    DirectoryAtOpen(base, p, r, env);
    DirectoryAtOpen(base, p, r', env);
    ResolveAgreesIff(base, Through(b + ExpandOpen(o, ExpandNames(r, env), env), '/'),
                     Through(b + ExpandOpen(o, ExpandNames(r', env), env), '/'));
  }

  /** Plain text below a directory. */
  predicate PlainText(r: string) {
    '/' !in r && '$' !in r && '}' !in r
  }

  /** Where the token leads while the default is open. */
  function OpenTarget(q: string, env: Environment): (d: string) {
    BeforeOpen(q, env) + FromOpen(q)
  }

  /** Where it leads once closed: the value of the variable, or the default. */
  function ClosedTarget(q: string, env: Environment): (d: string)
    requires FromOpen(q) != ""
  {
    var o := FromOpen(q);
    if BraceName(o) in env then Through(BeforeOpen(q, env) + env[BraceName(o)], '/')
    else BeforeOpen(q, env) + OpenText(o)
  }

  lemma {:induction false} StillOpen(base: string, p: string, r: string, env: Environment)
    requires LeavesOpen(p, env) && !CopiesRest(Home(env)) && PlainText(r)
    ensures CurrentDirectory(Some(base), p + r, env) == Resolve(base, OpenTarget(ForBraces(p, env), env))
  {
    var q := ForBraces(p, env);
    var b, o := BeforeOpen(q, env), FromOpen(q);
    DirectoryAtOpen(base, p, r, env);
    NoDollarUnchanged(r, env);
    OpenDirectory(p, env);
    DirectoryAppend(b, o);
    Associative(b, o, r);
    ThroughUnique(b + o, r, '/');
  }

  lemma {:induction false} ClosingTail(o: string, x: string, y: string, env: Environment)
    requires OpenAt(o) && PlainText(x) && PlainText(y)
    ensures ExpandOpen(o, ExpandNames(x + "}" + y, env), env)
         == (if BraceName(o) in env then env[BraceName(o)] else OpenText(o) + x) + y
  {
    var s := x + "}" + y;
    NoDollarUnchanged(s, env);
    NoDollarUnchanged(y, env);
    IndexOfUnique(s, '}', |x|);
    assert s[..|x|] == x && s[|x| + 1..] == y;
  }

  lemma {:induction false} ThroughPlain(x: string, y: string)
    requires '/' !in y
    ensures Through(x + y, '/') == Through(x, '/')
  {
    ThroughAfter(x, '/');
    Associative(Through(x, '/'), After(x, '/'), y);
    ThroughUnique(Through(x, '/'), After(x, '/') + y, '/');
  }

  lemma {:induction false} NowClosed(base: string, p: string, x: string, y: string, env: Environment)
    requires LeavesOpen(p, env) && !CopiesRest(Home(env)) && PlainText(x) && PlainText(y)
    ensures CurrentDirectory(Some(base), p + (x + "}" + y), env)
         == Resolve(base, ClosedTarget(ForBraces(p, env), env))
  {
    var q := ForBraces(p, env);
    var b, o := BeforeOpen(q, env), FromOpen(q);
    DirectoryAtOpen(base, p, x + "}" + y, env);
    ClosingTail(o, x, y, env);
    OpenDirectory(p, env);
    if BraceName(o) in env {
      Associative(b, env[BraceName(o)], y);
      ThroughPlain(b + env[BraceName(o)], y);
    } else {
      DefaultDirectory(b, OpenText(o), x, y);
    }
  }

  lemma {:induction false} DefaultDirectory(b: string, a: string, x: string, y: string)
    requires IsDirectory(a) && '/' !in x && '/' !in y
    ensures Through(b + (a + x + y), '/') == b + a
  {
    DirectoryAppend(b, a);
    assert b + (a + x + y) == b + a + (x + y);
    ThroughUnique(b + a, x + y, '/');
  }

  lemma {:induction false} UnsetNeverAgrees(base: string, b: string, name: string, a: string)
    ensures !SameDirectory(base, b + ("${" + (name + (":-" + a))), b + a)
  {
    var o := "${" + (name + (":-" + a));
    assert |b + o| > |b + a|;
    if b == "" {
      assert b + o == o && o[0] == '$';
    } else {
      assert (b + o)[0] == b[0] == (b + a)[0];
    }
  }

  /**
   * Closing, after the slash, a default left open before it: it does not trigger, whatever precedes
   * the reference and whatever plain text stands around the brace. Reuse is right if and only if the
   * variable is set and leads where the unfinished text led; for an unset one it is always wrong.
   */
  lemma {:induction false} OpenDefaultExact(base: string, env: Environment, p: string,
      r: string, x: string, y: string)
    requires LeavesOpen(p, env) && !CopiesRest(Home(env)) && PlainText(r) && PlainText(x) && PlainText(y)
    ensures !PathTrigger(p + (x + "}" + y), p + r)
    ensures var q := ForBraces(p, env);
      CurrentDirectory(Some(base), p + r, env) == CurrentDirectory(Some(base), p + (x + "}" + y), env) <==>
        BraceName(FromOpen(q)) in env && SameDirectory(base, OpenTarget(q, env), ClosedTarget(q, env))
  {
    var q := ForBraces(p, env);
    var b, o := BeforeOpen(q, env), FromOpen(q);
    QuietTails(p, r, x + "}" + y);
    StillOpen(base, p, r, env);
    NowClosed(base, p, x, y, env);
    ResolveAgreesIff(base, OpenTarget(q, env), ClosedTarget(q, env));
    if BraceName(o) !in env {
      OpenDirectory(p, env);
      UnsetNeverAgrees(base, b, BraceName(o), OpenText(o));
    }
  }

  /** Two tokens that both close the default may share a listing. */
  lemma {:induction false} ClosedDefaultsAgree(base: string, env: Environment, p: string,
      x: string, y: string, x': string, y': string)
    requires LeavesOpen(p, env) && !CopiesRest(Home(env))
    requires PlainText(x) && PlainText(y) && PlainText(x') && PlainText(y')
    ensures !PathTrigger(p + (x' + "}" + y'), p + (x + "}" + y))
    ensures CurrentDirectory(Some(base), p + (x + "}" + y), env)
         == CurrentDirectory(Some(base), p + (x' + "}" + y'), env)
  {
    QuietTails(p, x + "}" + y, x' + "}" + y');
    NowClosed(base, p, x, y, env);
    NowClosed(base, p, x', y', env);
  }

  // ----- such tokens exist

  lemma {:induction false} TextBeforeOpen(x: string, o: string, env: Environment)
    requires '$' !in x && OpenAt(o)
    ensures BeforeOpen(x + o, env) == x && FromOpen(x + o) == o
  {
    if x == "" {
      assert x + o == o;
    } else {
      var c, rest := x[..1], x[1..];
      Associative(c, rest, o);
      assert x[0] in x && c + rest == x;
      SkipText(c, rest + o, env);
      TextBeforeOpen(rest, o, env);
    }
  }

  lemma {:induction false} SkipText(c: string, s: string, env: Environment)
    requires |c| == 1 && c[0] != '$'
    ensures BeforeOpen(c + s, env) == c + BeforeOpen(s, env) && FromOpen(c + s) == FromOpen(s)
  {
    assert (c + s)[..1] == c && (c + s)[1..] == s;
    SkipOne(c + s, env);
  }

  lemma {:induction false} SkipOne(s: string, env: Environment)
    requires s != "" && s[0] != '$'
    ensures BeforeOpen(s, env) == s[..1] + BeforeOpen(s[1..], env) && FromOpen(s) == FromOpen(s[1..])
  {
    assert BraceName(s) == "" && BraceAt(s) == None;
  }

  lemma {:induction false} OpenReference(name: string, a: string)
    requires IsName(name) && '}' !in a
    ensures var o := "${" + (name + (":-" + a)); OpenAt(o) && BraceName(o) == name && OpenText(o) == a
  {
    var o := "${" + (name + (":-" + a));
    BraceNameRead(name, ":-" + a);
    assert (":-" + a)[0] == ':' && (":-" + a)[2..] == a;
    assert o[|name| + 2..][2..] == o[|name| + 4..];
  }

  lemma {:induction false} ReferenceStays(x: string, name: string, a: string, env: Environment)
    requires '$' !in x && IsName(name) && '$' !in a
    ensures var p := x + ("${" + (name + (":-" + a))); ExpandNames(p, env) == p
  {
    var body := name + (":-" + a);
    NameHasNoDollar(name);
    NamesSkipText(x, "${" + body, env);
    NamesSkipBrace(body, "", env);
    assert "${" + body + "" == "${" + body && ExpandNames("", env) == "";
  }

  /**
   * The case of text, then a default with a slash in it, as typed: closing the brace leaves the
   * listing of the literal text on screen, unless the variable is set and leads to that very directory.
   */
  lemma {:induction false} OpenDefaultIsStale(base: string, env: Environment, x: string, name: string, a: string,
      r: string, b: string, e: string)
    requires IsName(name) && IsDirectory(a) && '$' !in x && '$' !in a && '}' !in a
    requires !CopiesRest(Home(env)) && PlainText(r) && PlainText(b) && PlainText(e)
    requires !HasTilde(x + ("${" + (name + (":-" + a))))
    ensures var p := x + ("${" + (name + (":-" + a)));
      && !PathTrigger(p + (b + "}" + e), p + r)
      && CurrentDirectory(Some(base), p + r, env) == Resolve(base, p)
      && CurrentDirectory(Some(base), p + (b + "}" + e), env)
         == Resolve(base, if name in env then Through(x + env[name], '/') else x + a)
      && (CurrentDirectory(Some(base), p + r, env) == CurrentDirectory(Some(base), p + (b + "}" + e), env) <==>
            name in env && SameDirectory(base, p, Through(x + env[name], '/')))
  {
    var p := x + ("${" + (name + (":-" + a)));
    OpenToken(x, name, a, env);
    StillOpen(base, p, r, env);
    NowClosed(base, p, b, e, env);
    OpenDefaultExact(base, env, p, r, b, e);
  }

  lemma {:induction false} OpenToken(x: string, name: string, a: string, env: Environment)
    requires IsName(name) && IsDirectory(a) && '$' !in x && '$' !in a && '}' !in a
    requires !HasTilde(x + ("${" + (name + (":-" + a))))
    ensures var p := x + ("${" + (name + (":-" + a)));
      && LeavesOpen(p, env) && ForBraces(p, env) == p
      && BraceName(FromOpen(p)) == name && OpenTarget(p, env) == p
      && ClosedTarget(p, env) == if name in env then Through(x + env[name], '/') else x + a
  {
    var o := "${" + (name + (":-" + a));
    OpenReference(name, a);
    ReferenceStays(x, name, a, env);
    TextBeforeOpen(x, o, env);
    DirectoryAppend(":-", a);
    DirectoryAppend(name, ":-" + a);
    DirectoryAppend("${", name + (":-" + a));
    DirectoryAppend(x, o);
  }
}

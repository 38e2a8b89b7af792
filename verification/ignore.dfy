/**
 * The ignore verdict (`is_ignored` in clipbase/utils.py): the path is put
 * in rooted form and every compiled rule is tried in list order; an ignore
 * match sets the verdict, a negate match clears it, so the last rule that
 * matches decides.
 */
module Ignore {
  import opened Wrappers
  import opened Pattern
  import Config

  /** The form every path is checked in: forward slashes and a leading `/`. */
  function Normalize(path: string): (r: string)
    ensures |r| > 0 && r[0] == '/'
    ensures r == path || r == "/" + path
    ensures |path| > 0 && path[0] == '/' ==> r == path
    ensures !(|path| > 0 && path[0] == '/') ==> r == "/" + path
    ensures '\n' !in path ==> '\n' !in r
  {
    if |path| > 0 && path[0] == '/' then path else "/" + path
  }

  predicate IgnoreFires(rule: Rule, p: string) {
    rule.ignore.Some? && Matches(rule.ignore.value, p)
  }

  predicate NegateFires(rule: Rule, p: string) {
    rule.negate.Some? && Matches(rule.negate.value, p)
  }

  /** The rule has a matcher that matches `p`. */
  predicate Fires(rule: Rule, p: string) {
    IgnoreFires(rule, p) || NegateFires(rule, p)
  }

  /**
   * One iteration of the loop over the rules: a rule that fires sets the
   * verdict on its own (ignored unless its negation fires), and a rule that
   * does not fire keeps the verdict so far.
   */
  function Step(ignored: bool, rule: Rule, p: string): (r: bool)
    ensures Fires(rule, p) ==> (r <==> !NegateFires(rule, p))
    ensures !Fires(rule, p) ==> r == ignored
  {
    if NegateFires(rule, p) then false
    else if IgnoreFires(rule, p) then true
    else ignored
  }

  /** No rule after position `k` matches `p`. */
  predicate SilentAfter(rules: seq<Rule>, p: string, k: int) {
    forall l :: 0 <= l < |rules| && k < l ==> !Fires(rules[l], p)
  }

  /**
   * The last-match-wins reading of a rule list: some rule matches, the last
   * one that does is not a negation, and nothing after it matches.
   */
  predicate LastMatchIgnores(rules: seq<Rule>, p: string) {
    exists k :: 0 <= k < |rules| && Fires(rules[k], p) && !NegateFires(rules[k], p) && SilentAfter(rules, p, k)
  }

  /** How the last-match reading of a list relates to that of the list without its last rule. */
  lemma LastMatchUnfold(rules: seq<Rule>, p: string)
    requires |rules| > 0
    ensures
      var last, init := rules[|rules| - 1], rules[..|rules| - 1];
      LastMatchIgnores(rules, p) <==> if Fires(last, p) then !NegateFires(last, p) else LastMatchIgnores(init, p)
  {
    if Fires(rules[|rules| - 1], p) {
      LastFiresDecides(rules, p);
    } else {
      SilentLastDefers(rules, p);
    }
  }

  /** When the last rule fires, it alone decides. */
  lemma LastFiresDecides(rules: seq<Rule>, p: string)
    requires |rules| > 0 && Fires(rules[|rules| - 1], p)
    ensures LastMatchIgnores(rules, p) <==> !NegateFires(rules[|rules| - 1], p)
  {
    var n := |rules| - 1;
    if !NegateFires(rules[n], p) {
      assert SilentAfter(rules, p, n);
    }
    if LastMatchIgnores(rules, p) {
      var k :| 0 <= k < |rules| && Fires(rules[k], p) && !NegateFires(rules[k], p) && SilentAfter(rules, p, k);
      assert k == n;
    }
  }

  /** When the last rule does not fire, the rules before it decide. */
  lemma SilentLastDefers(rules: seq<Rule>, p: string)
    requires |rules| > 0 && !Fires(rules[|rules| - 1], p)
    ensures LastMatchIgnores(rules, p) <==> LastMatchIgnores(rules[..|rules| - 1], p)
  {
    if LastMatchIgnores(rules, p) {
      DecidingRuleIsEarlier(rules, p);
    }
    if LastMatchIgnores(rules[..|rules| - 1], p) {
      EarlierRuleStillDecides(rules, p);
    }
  }

  /** The rule that decides a list whose last rule is silent also decides the list without it. */
  lemma DecidingRuleIsEarlier(rules: seq<Rule>, p: string)
    requires |rules| > 0 && !Fires(rules[|rules| - 1], p)
    requires LastMatchIgnores(rules, p)
    ensures LastMatchIgnores(rules[..|rules| - 1], p)
  {
    var n := |rules| - 1;
    var init := rules[..n];
    var k :| 0 <= k < |rules| && Fires(rules[k], p) && !NegateFires(rules[k], p) && SilentAfter(rules, p, k);
    assert k < n && init[k] == rules[k];
    assert SilentAfter(init, p, k) by {
      forall l | k < l < |init|
        ensures !Fires(init[l], p)
      {
        assert init[l] == rules[l];
      }
    }
  }

  /** Appending a silent rule keeps the deciding rule of the shorter list. */
  lemma EarlierRuleStillDecides(rules: seq<Rule>, p: string)
    requires |rules| > 0 && !Fires(rules[|rules| - 1], p)
    requires LastMatchIgnores(rules[..|rules| - 1], p)
    ensures LastMatchIgnores(rules, p)
  {
    var n := |rules| - 1;
    var init := rules[..n];
    var k :| 0 <= k < |init| && Fires(init[k], p) && !NegateFires(init[k], p) && SilentAfter(init, p, k);
    assert rules[k] == init[k];
    assert SilentAfter(rules, p, k) by {
      forall l | k < l < |rules|
        ensures !Fires(rules[l], p)
      {
        if l < n {
          assert rules[l] == init[l];
        }
      }
    }
  }

  /** The verdict of the loop over `rules` for an already normalized path. */
  function Verdict(rules: seq<Rule>, p: string): (r: bool)
    ensures r <==> LastMatchIgnores(rules, p)
    decreases |rules|
  {
    if |rules| == 0 then false
    else
      var prev := Verdict(rules[..|rules| - 1], p);
      LastMatchUnfold(rules, p);
      Step(prev, rules[|rules| - 1], p)
  }

  /**
   * `is_ignored(path, rules)`: true exactly when the last rule matching the
   * normalized path is an ignore rule; false when no rule matches.
   */
  function IsIgnored(path: string, rules: seq<Rule>): (r: bool)
    requires '\n' !in path
    ensures r <==> LastMatchIgnores(rules, Normalize(path))
    ensures (forall k :: 0 <= k < |rules| ==> !Fires(rules[k], Normalize(path))) ==> !r
  {
    Verdict(rules, Normalize(path))
  }

  /** `[gitignore_to_regex(p) for p in patterns]`. */
  function CompileAll(patterns: seq<string>): (rules: seq<Rule>)
    ensures |rules| == |patterns|
    ensures forall k :: 0 <= k < |patterns| ==> rules[k] == Compile(patterns[k])
  {
    seq(|patterns|, k requires 0 <= k < |patterns| => Compile(patterns[k]))
  }

  // ---------------------------------------------------------------------------
  // Properties of the verdict
  // ---------------------------------------------------------------------------

  /** A rule that does not match the path leaves the verdict as it was. */
  lemma SilentRuleChangesNothing(path: string, rules: seq<Rule>, rule: Rule)
    requires '\n' !in path
    requires !Fires(rule, Normalize(path))
    ensures IsIgnored(path, rules + [rule]) == IsIgnored(path, rules)
  {
    var p := Normalize(path);
    var extended := rules + [rule];
    assert extended[..|extended| - 1] == rules;
    LastMatchUnfold(extended, p);
  }

  /** A path and the same path with a leading `/` get the same verdict. */
  lemma LeadingSlashIsIrrelevant(path: string, rules: seq<Rule>)
    requires '\n' !in path
    requires |path| == 0 || path[0] != '/'
    ensures IsIgnored("/" + path, rules) == IsIgnored(path, rules)
  {
    assert Normalize("/" + path) == "/" + path;
  }

  /** With no negations in the list, a path is ignored exactly when some rule matches it. */
  lemma {:induction false} WithoutNegationAnyMatchIgnores(rules: seq<Rule>, p: string)
    requires forall k :: 0 <= k < |rules| ==> rules[k].negate.None?
    ensures Verdict(rules, p) <==> exists k :: 0 <= k < |rules| && IgnoreFires(rules[k], p)
    decreases |rules|
  {
    if |rules| > 0 {
      var init := rules[..|rules| - 1];
      WithoutNegationAnyMatchIgnores(init, p);
      if exists k :: 0 <= k < |init| && IgnoreFires(init[k], p) {
        var k :| 0 <= k < |init| && IgnoreFires(init[k], p);
        assert rules[k] == init[k];
      }
      if exists k :: 0 <= k < |rules| && IgnoreFires(rules[k], p) {
        var k :| 0 <= k < |rules| && IgnoreFires(rules[k], p);
        if k < |init| {
          assert init[k] == rules[k];
        }
      }
    }
  }

  /**
   * `!p` compiles to a rule with no ignore matcher whose negate matcher is
   * exactly the ignore matcher `p` compiles to.
   */
  lemma NegationReusesMatcher(p: string)
    ensures Compile("!" + p).ignore.None?
    ensures Compile("!" + p).negate == Compile(p).ignore
  {
    assert ("!" + p)[1..] == p;
  }

  /** `!!p` compiles to `(None, None)`, which never changes a verdict. */
  lemma DoubleNegationIsInert(p: string, path: string, rules: seq<Rule>)
    requires '\n' !in path
    ensures Compile("!!" + p) == Rule(None, None)
    ensures IsIgnored(path, rules + [Compile("!!" + p)]) == IsIgnored(path, rules)
  {
    assert ("!!" + p)[1..] == "!" + p;
    NegationReusesMatcher(p);
    SilentRuleChangesNothing(path, rules, Rule(None, None));
  }

  /** The verdict of a two-rule list, one step at a time. */
  lemma VerdictOfPair(a: Rule, b: Rule, p: string)
    ensures Verdict([a, b], p) == Step(Step(false, a, p), b, p)
  {
    assert [a, b][..1] == [a];
    assert [a][..0] == [];
  }

  // ---------------------------------------------------------------------------
  // A directory rule followed by a negated file inside it
  // ---------------------------------------------------------------------------

  /** A name usable verbatim in a pattern: non-empty, no wildcard, no `/`, no newline. */
  predicate PlainName(s: string) {
    |s| > 0 && '*' !in s && '?' !in s && '/' !in s && '\n' !in s
  }

  /** The two lines `dir/` and `!dir/file`, in that order. */
  function DirThenKeep(dir: string, file: string): seq<string> {
    [dir + "/", "!" + dir + "/" + file]
  }

  /** `dir/` compiles to an ignore rule whose body is the literal `dir`. */
  lemma DirPatternCompiles(dir: string)
    requires PlainName(dir) && dir[0] != '!'
    ensures Compile(dir + "/") == Rule(Some(Matcher(NoPrefix, Tokenize(dir))), None)
    ensures DropTrailingSlash(dir + "/") == dir
  {
    var pat := dir + "/";
    assert pat[0] == dir[0];
    assert pat[|dir|] == '/';
    assert pat[..|pat| - 1] == dir;
  }

  /** `!dir/file` compiles to a negate rule whose body is the literal `dir/file`. */
  lemma KeepPatternCompiles(dir: string, file: string)
    requires PlainName(dir) && dir[0] != '!' && PlainName(file)
    ensures Compile("!" + dir + "/" + file) == Rule(None, Some(Matcher(NoPrefix, Tokenize(dir + "/" + file))))
    ensures CompileMatcher(dir + "/" + file) == Matcher(NoPrefix, Tokenize(dir + "/" + file))
  {
    var rest := dir + "/" + file;
    ChildPatternCompiles(dir, file);
    NegatedCompiles(rest, Matcher(NoPrefix, Tokenize(rest)));
    PrefixedChild("!", dir, file);
  }

  // A sequence-associativity step with no meaning of its own, kept apart so
  // that the caller proves it without the compiled rules in view.
  lemma PrefixedChild(c: string, dir: string, file: string)
    ensures c + dir + "/" + file == c + (dir + "/" + file)
  {
  }

  /** `!rest` negates with the matcher `rest` would ignore with. */
  lemma NegatedCompiles(rest: string, m: Matcher)
    requires Compile(rest).ignore == Some(m)
    ensures Compile("!" + rest) == Rule(None, Some(m))
  {
    NegationReusesMatcher(rest);
  }

  /** `dir/file` is neither anchored nor a negation, and has no trailing `/`. */
  lemma ChildPatternCompiles(dir: string, file: string)
    requires PlainName(dir) && dir[0] != '!' && PlainName(file)
    ensures CompileMatcher(dir + "/" + file) == Matcher(NoPrefix, Tokenize(dir + "/" + file))
    ensures Compile(dir + "/" + file).ignore == Some(Matcher(NoPrefix, Tokenize(dir + "/" + file)))
  {
    var rest := dir + "/" + file;
    assert rest[0] == dir[0];
    assert rest[|dir|] == '/';
    assert rest[|rest| - 1] == file[|file| - 1];
  }

  /** The literal `dir` matches the directory itself and everything below it. */
  lemma DirMatcherMatches(dir: string, below: string)
    requires PlainName(dir) && dir[0] != '!'
    requires |below| == 0 || below[0] == '/'
    ensures Matches(Matcher(NoPrefix, Tokenize(dir)), "/" + dir + below)
  {
    DirPatternCompiles(dir);
    OwnTextMatchesAnywhere(dir + "/", "/", below);
  }

  /**
   * The literal `dir/file` matches `/dir/file` and no other file directly in
   * `dir`, nor `dir` itself.
   */
  lemma KeepMatcherMatches(dir: string, file: string, other: string)
    requires PlainName(dir) && dir[0] != '!' && PlainName(file) && PlainName(other) && other != file
    ensures Matches(Matcher(NoPrefix, Tokenize(dir + "/" + file)), "/" + dir + "/" + file)
    ensures !Matches(Matcher(NoPrefix, Tokenize(dir + "/" + file)), "/" + dir)
    ensures !Matches(Matcher(NoPrefix, Tokenize(dir + "/" + file)), "/" + dir + "/" + other)
  {
    var w := dir + "/" + file;
    var km := Matcher(NoPrefix, Tokenize(w));
    KeepMatcherMatchesItself(dir, file);
    PlainTextIsLiteral(w);
    LongLiteralMissesShortPath(km, "/" + dir);
    KeepMatcherMissesSibling(dir, file, other);
  }

  lemma KeepMatcherMatchesItself(dir: string, file: string)
    requires PlainName(dir) && dir[0] != '!' && PlainName(file)
    ensures Matches(Matcher(NoPrefix, Tokenize(dir + "/" + file)), "/" + dir + "/" + file)
  {
    var w := dir + "/" + file;
    ChildPatternCompiles(dir, file);
    OwnTextMatchesAnywhere(w, "/", "");
    RootedChild(dir, file);
  }

  // Sequence-associativity steps for rooted `dir/file` paths, kept apart so
  // that the callers prove them without the matchers in view.
  lemma RootedChild(dir: string, file: string)
    ensures "/" + (dir + "/" + file) + "" == "/" + dir + "/" + file
    ensures "/" + (dir + "/" + file) == "/" + dir + "/" + file
    ensures "/" + dir + "/" + file == "/" + dir + ("/" + file)
  {
  }

  lemma KeepMatcherMissesSibling(dir: string, file: string, other: string)
    requires PlainName(dir) && PlainName(file) && PlainName(other) && other != file
    ensures !Matches(Matcher(NoPrefix, Tokenize(dir + "/" + file)), "/" + dir + "/" + other)
  {
    var w := dir + "/" + file;
    var km := Matcher(NoPrefix, Tokenize(w));
    var p := "/" + dir + "/" + other;
    PlainTextIsLiteral(w);
    if Matches(km, p) {
      var i, j :| 0 <= i <= j <= |p| && StartAccepts(km.prefix, p, i) && FullMatch(km.body, p[i..j]) && EndAccepts(p, j);
      LiteralBodyMatchesOnlyItself(km.body, p[i..j]);
      ChildOccurrence(dir, file, other, i, j);
    }
  }

  /** Where `dir/file` can occur in `/dir/other` so that a `/` or the end follows: only as `other` itself. */
  lemma ChildOccurrence(dir: string, file: string, other: string, i: nat, j: nat)
    requires PlainName(dir) && PlainName(file) && PlainName(other)
    requires i <= j <= |"/" + dir + "/" + other|
    requires ("/" + dir + "/" + other)[i..j] == dir + "/" + file
    requires EndAccepts("/" + dir + "/" + other, j)
    ensures other == file
  {
    var p, w := "/" + dir + "/" + other, dir + "/" + file;
    SlashesOfChildPath(dir, other);
    assert p[i..j][|dir|] == '/';
    assert i == 1 && j == |p|;
    assert p[i..j][|dir| + 1..] == file;
  }

  /** In `/dir/name` the only slashes are the first character and the one after `dir`. */
  lemma SlashesOfChildPath(dir: string, name: string)
    requires '/' !in dir && '/' !in name
    ensures forall k :: 0 <= k < |"/" + dir + "/" + name| && ("/" + dir + "/" + name)[k] == '/' ==> k == 0 || k == |dir| + 1
  {
  }

  /**
   * With `dir/` followed by `!dir/file`, `dir` and every other file directly
   * in it are ignored while `dir/file` is not; listing the two lines the
   * other way round ignores `dir/file` too, so the order of lines matters.
   */
  lemma LaterNegationWins(dir: string, file: string, other: string)
    requires PlainName(dir) && dir[0] != '!' && PlainName(file) && PlainName(other) && other != file
    ensures IsIgnored(dir, CompileAll(DirThenKeep(dir, file)))
    ensures IsIgnored(dir + "/" + other, CompileAll(DirThenKeep(dir, file)))
    ensures !IsIgnored(dir + "/" + file, CompileAll(DirThenKeep(dir, file)))
    ensures IsIgnored(dir + "/" + file, CompileAll([DirThenKeep(dir, file)[1], DirThenKeep(dir, file)[0]]))
  {
    var b := Rule(Some(Matcher(NoPrefix, Tokenize(dir))), None);
    var k := Rule(None, Some(Matcher(NoPrefix, Tokenize(dir + "/" + file))));
    PairCompiles(dir, file);
    PairVerdicts(dir, file, other, b, k);
  }

  /** The two lines compile to the directory rule and the keep rule, in either order. */
  lemma PairCompiles(dir: string, file: string)
    requires PlainName(dir) && dir[0] != '!' && PlainName(file)
    ensures CompileAll(DirThenKeep(dir, file))
      == [Rule(Some(Matcher(NoPrefix, Tokenize(dir))), None), Rule(None, Some(Matcher(NoPrefix, Tokenize(dir + "/" + file))))]
    ensures CompileAll([DirThenKeep(dir, file)[1], DirThenKeep(dir, file)[0]])
      == [Rule(None, Some(Matcher(NoPrefix, Tokenize(dir + "/" + file)))), Rule(Some(Matcher(NoPrefix, Tokenize(dir))), None)]
  {
    var lines := DirThenKeep(dir, file);
    var b := Rule(Some(Matcher(NoPrefix, Tokenize(dir))), None);
    var k := Rule(None, Some(Matcher(NoPrefix, Tokenize(dir + "/" + file))));
    DirPatternCompiles(dir);
    KeepPatternCompiles(dir, file);
    CompileTwo(lines[0], lines[1], b, k);
    CompileTwo(lines[1], lines[0], k, b);
  }

  /** Compiling two lines gives their two rules, in order. */
  lemma CompileTwo(x: string, y: string, rx: Rule, ry: Rule)
    requires Compile(x) == rx && Compile(y) == ry
    ensures CompileAll([x, y]) == [rx, ry]
  {
    assert CompileAll([x, y])[0] == rx && CompileAll([x, y])[1] == ry;
  }

  /** The verdicts of `LaterNegationWins`, stated on the compiled rules. */
  lemma PairVerdicts(dir: string, file: string, other: string, b: Rule, k: Rule)
    requires PlainName(dir) && dir[0] != '!' && PlainName(file) && PlainName(other) && other != file
    requires b == Rule(Some(Matcher(NoPrefix, Tokenize(dir))), None)
    requires k == Rule(None, Some(Matcher(NoPrefix, Tokenize(dir + "/" + file))))
    ensures IsIgnored(dir, [b, k])
    ensures IsIgnored(dir + "/" + other, [b, k])
    ensures !IsIgnored(dir + "/" + file, [b, k])
    ensures IsIgnored(dir + "/" + file, [k, b])
  {
    KeepMatcherMatches(dir, file, other);
    DirItselfIgnored(dir, b, k);
    ChildVerdicts(dir, other, b, k);
    ChildVerdicts(dir, file, b, k);
  }

  /** `dir` under `[b, k]` when `b` matches `/dir` and `k` does not. */
  lemma DirItselfIgnored(dir: string, b: Rule, k: Rule)
    requires PlainName(dir) && dir[0] != '!'
    requires b == Rule(Some(Matcher(NoPrefix, Tokenize(dir))), None) && k.ignore.None?
    requires !NegateFires(k, "/" + dir)
    ensures IsIgnored(dir, [b, k])
  {
    DirMatcherMatches(dir, "");
    assert Normalize(dir) == "/" + dir + "";
    VerdictOfPair(b, k, "/" + dir);
  }

  /** The verdicts on `dir/name` under `[b, k]` and `[k, b]`, where `b` ignores `dir`. */
  lemma ChildVerdicts(dir: string, name: string, b: Rule, k: Rule)
    requires PlainName(dir) && dir[0] != '!' && '\n' !in name
    requires b == Rule(Some(Matcher(NoPrefix, Tokenize(dir))), None) && k.ignore.None?
    ensures IsIgnored(dir + "/" + name, [b, k]) <==> !NegateFires(k, "/" + dir + "/" + name)
    ensures IsIgnored(dir + "/" + name, [k, b])
  {
    var p := "/" + dir + "/" + name;
    DirMatcherMatches(dir, "/" + name);
    RootedChild(dir, name);
    assert (dir + "/" + name)[0] == dir[0];
    assert Normalize(dir + "/" + name) == p;
    VerdictOfPair(b, k, p);
    VerdictOfPair(k, b, p);
  }

  /** The built-in rules, compiled in order. */
  function DefaultRules(): seq<Rule> {
    CompileAll(Config.DefaultIgnorePatterns)
  }

  /** A built-in pattern that matches a path makes it ignored under the built-in rules. */
  lemma DefaultMatchIgnores(k: nat, path: string)
    requires '\n' !in path
    requires k < |Config.DefaultIgnorePatterns|
    requires Matches(CompileMatcher(Config.DefaultIgnorePatterns[k]), Normalize(path))
    ensures IsIgnored(path, DefaultRules())
  {
    var rules := DefaultRules();
    Config.DefaultsArePlainPatterns();
    assert forall l :: 0 <= l < |rules| ==> rules[l].negate.None?;
    WithoutNegationAnyMatchIgnores(rules, Normalize(path));
    assert IgnoreFires(rules[k], Normalize(path));
  }

  /**
   * A built-in pattern ignores every path that contains its own text (less a
   * trailing `/`) followed by the end of the path or a `/`.
   */
  lemma DefaultTextIgnoredAnywhere(k: nat, a: string, b: string)
    requires k < |Config.DefaultIgnorePatterns|
    requires |b| == 0 || b[0] == '/'
    requires '\n' !in a + DropTrailingSlash(Config.DefaultIgnorePatterns[k]) + b
    ensures IsIgnored(a + DropTrailingSlash(Config.DefaultIgnorePatterns[k]) + b, DefaultRules())
  {
    var pat := Config.DefaultIgnorePatterns[k];
    Config.DefaultsArePlainPatterns();
    var path := a + DropTrailingSlash(pat) + b;
    OwnTextMatchesAnywhere(pat, a, b);
    UnanchoredIgnoresWhatPrecedes(CompileMatcher(pat), "/", path);
    DefaultMatchIgnores(k, path);
  }

  /** A built-in `*ext` pattern ignores every file whose name ends with `ext`, at any depth. */
  lemma DefaultSuffixIgnored(k: nat, ext: string, a: string, name: string)
    requires k < |Config.DefaultIgnorePatterns| && Config.DefaultIgnorePatterns[k] == "*" + ext
    requires |ext| > 0 && '*' !in ext && '?' !in ext && '/' !in ext
    requires '/' !in name
    requires '\n' !in a + name + ext
    ensures IsIgnored(a + name + ext, DefaultRules())
  {
    var path := a + name + ext;
    StarSuffixMatches(ext, a, name);
    assert ("*" + ext)[0] == '*';
    UnanchoredIgnoresWhatPrecedes(CompileMatcher("*" + ext), "/", path);
    DefaultMatchIgnores(k, path);
  }
}

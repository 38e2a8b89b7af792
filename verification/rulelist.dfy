/**
 * The rule list of a run (`CodebaseGenerator._build_ignore_rules` in
 * clipbase/cli.py): the built-in patterns, then the lines of the project's
 * `.gitignore`, then the `--exclude` values; empty lines and `#` lines are
 * dropped and every remaining line is compiled, in order.
 */
module RuleList {
  import opened Wrappers
  import Strings
  import Config
  import opened Pattern
  import opened Ignore

  /** The parsed command-line options the generator reads. */
  datatype Options = Options(
    output: string,
    clipboard: bool,
    exclude: seq<string>,
    noDefaults: bool,
    noGitignore: bool,
    maxSize: int)

  /** The built-in patterns, unless `--no-defaults` was given. */
  function DefaultSection(opts: Options): seq<string> {
    if opts.noDefaults then [] else Config.DefaultIgnorePatterns
  }

  /**
   * The lines of `.gitignore` (`None` when the project has none), unless
   * `--no-gitignore` was given.
   */
  function GitignoreSection(opts: Options, gitignore: Option<string>): seq<string> {
    if opts.noGitignore || gitignore.None? then [] else Strings.SplitLines(gitignore.value)
  }

  /** Every pattern line of the run, before filtering. */
  function RawPatterns(opts: Options, gitignore: Option<string>): seq<string> {
    DefaultSection(opts) + GitignoreSection(opts, gitignore) + opts.exclude
  }

  /** A line the filter drops: empty, or a comment. Lines are not stripped first. */
  predicate Dropped(p: string) {
    |p| == 0 || p[0] == '#'
  }

  /** `[p for p in patterns if p and not p.startswith('#')]`. */
  function Kept(ps: seq<string>): (r: seq<string>)
    ensures |r| <= |ps|
    ensures forall p :: p in r <==> p in ps && !Dropped(p)
    decreases |ps|
  {
    if |ps| == 0 then []
    else if Dropped(ps[|ps| - 1]) then Kept(ps[..|ps| - 1])
    else Kept(ps[..|ps| - 1]) + [ps[|ps| - 1]]
  }

  /** `_build_ignore_rules`: the kept lines of the run, compiled in order. */
  function BuildRules(opts: Options, gitignore: Option<string>): (rules: seq<Rule>)
    ensures rules == CompileAll(Kept(DefaultSection(opts)))
      + CompileAll(Kept(GitignoreSection(opts, gitignore)))
      + CompileAll(Kept(opts.exclude))
  {
    var d, g, e := DefaultSection(opts), GitignoreSection(opts, gitignore), opts.exclude;
    KeptAppend(d + g, e);
    KeptAppend(d, g);
    CompileAllAppend(Kept(d) + Kept(g), Kept(e));
    CompileAllAppend(Kept(d), Kept(g));
    CompileAll(Kept(RawPatterns(opts, gitignore)))
  }

  // ---------------------------------------------------------------------------
  // Properties
  // ---------------------------------------------------------------------------

  /** The filter keeps the order of the lines: filtering distributes over concatenation. */
  lemma {:induction false} KeptAppend(a: seq<string>, b: seq<string>)
    ensures Kept(a + b) == Kept(a) + Kept(b)
    decreases |b|
  {
    if |b| == 0 {
      assert a + b == a;
    } else {
      var n := |b| - 1;
      assert (a + b)[..|a + b| - 1] == a + b[..n];
      assert (a + b)[|a + b| - 1] == b[n];
      KeptAppend(a, b[..n]);
    }
  }

  /** Lines none of which is dropped pass the filter unchanged. */
  lemma {:induction false} KeptIdentity(ps: seq<string>)
    requires forall k :: 0 <= k < |ps| ==> !Dropped(ps[k])
    ensures Kept(ps) == ps
    decreases |ps|
  {
    if |ps| > 0 {
      KeptIdentity(ps[..|ps| - 1]);
    }
  }

  /** Compiling distributes over concatenation. */
  lemma CompileAllAppend(a: seq<string>, b: seq<string>)
    ensures CompileAll(a + b) == CompileAll(a) + CompileAll(b)
  {
  }

  /** Every built-in pattern survives the filter, in order. */
  lemma DefaultsSurviveFiltering()
    ensures Kept(Config.DefaultIgnorePatterns) == Config.DefaultIgnorePatterns
  {
    Config.DefaultsArePlainPatterns();
    KeptIdentity(Config.DefaultIgnorePatterns);
  }

  /** Unless `--no-defaults` is given, the rule list starts with the built-in rules, in order. */
  lemma DefaultsComeFirst(opts: Options, gitignore: Option<string>)
    requires !opts.noDefaults
    ensures DefaultRules() <= BuildRules(opts, gitignore)
  {
    DefaultsSurviveFiltering();
  }

  /** Every built-in pattern compiles to a plain ignore rule (no negation). */
  lemma DefaultsArePlainIgnoreRules()
    ensures forall k :: 0 <= k < |DefaultRules()| ==> DefaultRules()[k].ignore.Some? && DefaultRules()[k].negate.None?
  {
    Config.DefaultsArePlainPatterns();
  }

  /** Lines that are all dropped leave nothing. */
  lemma {:induction false} KeptNothing(ps: seq<string>)
    requires forall k :: 0 <= k < |ps| ==> Dropped(ps[k])
    ensures Kept(ps) == []
    decreases |ps|
  {
    if |ps| > 0 {
      KeptNothing(ps[..|ps| - 1]);
    }
  }

  /**
   * With `--no-defaults`, `--no-gitignore` and no usable `--exclude` value
   * there are no rules, so nothing is ignored.
   */
  lemma NoSourcesNoRules(opts: Options, gitignore: Option<string>, path: string)
    requires opts.noDefaults && opts.noGitignore
    requires forall k :: 0 <= k < |opts.exclude| ==> Dropped(opts.exclude[k])
    requires '\n' !in path
    ensures BuildRules(opts, gitignore) == []
    ensures !IsIgnored(path, BuildRules(opts, gitignore))
  {
    KeptNothing(opts.exclude);
  }

  /**
   * A `.gitignore` line that is neither empty nor a comment becomes a rule
   * verbatim (not stripped), in the `.gitignore` part of the list, which
   * follows every built-in rule.
   */
  lemma GitignoreLineBecomesRule(opts: Options, text: string, line: string)
    requires !opts.noGitignore
    requires line in Strings.SplitLines(text) && !Dropped(line)
    ensures Compile(line) in CompileAll(Kept(GitignoreSection(opts, Some(text))))
  {
    var g := Kept(GitignoreSection(opts, Some(text)));
    assert line in g;
    var j :| 0 <= j < |g| && g[j] == line;
    assert CompileAll(g)[j] == Compile(line);
  }
}

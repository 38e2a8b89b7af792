// Compilation of one gitignore-style line (`gitignore_to_regex` in
// clipbase/utils.py). The Python code builds a regular expression and
// later applies it with `re.search`; here the compiled regex is a small
// datatype and its search semantics is a predicate.
//
// The regex always has the shape  PREFIX BODY `(/.*)?$`  where PREFIX is
// `^`, `(.*/)?` or nothing and BODY is the escaped pattern with the three
// wildcard replacements applied. Paths are assumed to contain no '\n',
// so `.` matches every character of a path and `$` means end of string.
module Pattern {
  import opened Wrappers

  /** One unit of a compiled body: a literal, `[^/]*`, `.*` or `.`. */
  datatype Token = Lit(c: char) | Star | DStar | Any

  // What precedes the body: `^`, `(.*/)?`, or nothing.
  datatype Prefix = Caret | AnyDirs | NoPrefix

  datatype Matcher = Matcher(prefix: Prefix, body: seq<Token>)

  /** A compiled line: `(ignore_regex, negate_regex)`, each possibly `None`. */
  datatype Rule = Rule(ignore: Option<Matcher>, negate: Option<Matcher>)

  // ---------------------------------------------------------------------------
  // Wildcard translation
  // ---------------------------------------------------------------------------

  /** The pattern text a token stands for. */
  function TokenText(t: Token): string {
    match t
    case Lit(c) => [c]
    case Star => "*"
    case DStar => "**"
    case Any => "?"
  }

  /** The pattern text a token sequence stands for. */
  function Spell(ts: seq<Token>): string
    decreases |ts|
  {
    if |ts| == 0 then "" else TokenText(ts[0]) + Spell(ts[1..])
  }

  /**
   * The token sequences the translation can produce: wildcard characters
   * never appear as literals, and a lone `*` is never followed by another `*`
   * (stars pair up left to right).
   */
  predicate Canonical(ts: seq<Token>) {
    && (forall k :: 0 <= k < |ts| ==> ts[k] != Lit('*') && ts[k] != Lit('?'))
    && (forall k :: 0 <= k < |ts| - 1 && ts[k] == Star ==> ts[k + 1] != Star && ts[k + 1] != DStar)
  }

  /**
   * `re.escape(p).replace(r'\*\*', '.*').replace(r'\*', '[^/]*').replace(r'\?', '.')`
   * read as a tokenizer: `**` pairs up left to right, a leftover `*` is `Star`,
   * `?` is `Any` and every other character is matched literally.
   */
  function Tokenize(s: string): (r: seq<Token>)
    ensures Spell(r) == s
    ensures Canonical(r)
    ensures |r| > 0 && (r[0] == Star || r[0] == DStar) <==> |s| > 0 && s[0] == '*'
    decreases |s|
  {
    if |s| == 0 then []
    else if |s| >= 2 && s[0] == '*' && s[1] == '*' then [DStar] + Tokenize(s[2..])
    else if s[0] == '*' then [Star] + Tokenize(s[1..])
    else if s[0] == '?' then [Any] + Tokenize(s[1..])
    else [Lit(s[0])] + Tokenize(s[1..])
  }

  /** The translation is the only canonical token sequence spelling its input. */
  lemma {:induction false} TokenizeUnique(ts: seq<Token>)
    requires Canonical(ts)
    ensures Tokenize(Spell(ts)) == ts
    decreases |ts|
  {
    if |ts| > 0 {
      var rest := ts[1..];
      assert Canonical(rest);
      TokenizeUnique(rest);
      var s := Spell(ts);
      assert s == TokenText(ts[0]) + Spell(rest);
      match ts[0]
      case DStar =>
        assert s[2..] == Spell(rest);
      case Star =>
        assert s[1..] == Spell(rest);
        if |rest| > 0 {
          assert rest[0] != Star && rest[0] != DStar;
          assert Spell(rest) == TokenText(rest[0]) + Spell(rest[1..]);
          assert s[1] == TokenText(rest[0])[0];
        }
      case Any =>
        assert s[1..] == Spell(rest);
      case Lit(c) =>
        assert s[1..] == Spell(rest);
    }
  }

  // ---------------------------------------------------------------------------
  // Matching
  // ---------------------------------------------------------------------------

  /** The body matches all of `s` (the regex engine's notion of a match). */
  predicate FullMatch(ts: seq<Token>, s: string)
    decreases |ts|, |s|
  {
    if |ts| == 0 then |s| == 0
    else match ts[0]
      case Lit(c) => |s| > 0 && s[0] == c && FullMatch(ts[1..], s[1..])
      case Any => |s| > 0 && FullMatch(ts[1..], s[1..])
      case Star => FullMatch(ts[1..], s) || (|s| > 0 && s[0] != '/' && FullMatch(ts, s[1..]))
      case DStar => FullMatch(ts[1..], s) || (|s| > 0 && FullMatch(ts, s[1..]))
  }

  /** The prefix consumes `p[k..i]` when the search tries position `k`. */
  predicate PrefixAccepts(pre: Prefix, p: string, k: int, i: int)
    requires 0 <= k <= i <= |p|
  {
    match pre
    case Caret => k == 0 && i == 0
    case AnyDirs => k == i || (k < i && p[i - 1] == '/')
    case NoPrefix => k == i
  }

  /** Some search position lets the prefix end exactly at `i`. */
  predicate StartAccepts(pre: Prefix, p: string, i: int)
    requires 0 <= i <= |p|
  {
    exists k :: 0 <= k <= i && PrefixAccepts(pre, p, k, i)
  }

  /** `(/.*)?$` accepts the rest of the path from `j`. */
  predicate EndAccepts(p: string, j: int)
    requires 0 <= j <= |p|
  {
    j == |p| || p[j] == '/'
  }

  /** `regex.search(p)` finds a match. */
  predicate Matches(m: Matcher, p: string) {
    exists i, j :: 0 <= i <= j <= |p| && StartAccepts(m.prefix, p, i) && FullMatch(m.body, p[i..j]) && EndAccepts(p, j)
  }

  // ---------------------------------------------------------------------------
  // Compilation
  // ---------------------------------------------------------------------------

  /** The anchoring decision and the text left once a leading `/` is removed. */
  function Anchor(pattern: string): (r: (Prefix, string))
    ensures r.0 == Caret <==> |pattern| > 0 && pattern[0] == '/'
    ensures r.0 == AnyDirs <==> '/' !in pattern
    ensures r.0 == Caret ==> pattern == "/" + r.1
    ensures r.0 != Caret ==> r.1 == pattern
  {
    if |pattern| > 0 && pattern[0] == '/' then (Caret, pattern[1..])
    else if '/' !in pattern then (AnyDirs, pattern)
    else (NoPrefix, pattern)
  }

  /** `pattern` less one trailing `/` (the directory-only marker). */
  function DropTrailingSlash(s: string): (r: string)
    ensures r == s || r + "/" == s
    ensures |s| > 0 && s[|s| - 1] == '/' ==> |r| == |s| - 1
  {
    if |s| > 0 && s[|s| - 1] == '/' then s[..|s| - 1] else s
  }

  /** `gitignore_to_regex(pattern)[0]` for a pattern not starting with `!`. */
  function CompileMatcher(pattern: string): (m: Matcher)
    ensures m.prefix == Caret <==> |pattern| > 0 && pattern[0] == '/'
    ensures m.prefix == AnyDirs <==> '/' !in pattern
    ensures Canonical(m.body)
    ensures |Spell(m.body)| + 2 >= |pattern| >= |Spell(m.body)|
    ensures var rest := if |pattern| > 0 && pattern[0] == '/' then pattern[1..] else pattern;
      Spell(m.body) == rest || Spell(m.body) + "/" == rest
    ensures var rest := if |pattern| > 0 && pattern[0] == '/' then pattern[1..] else pattern;
      |rest| > 0 && rest[|rest| - 1] == '/' ==> Spell(m.body) + "/" == rest
  {
    var (pre, rest) := Anchor(pattern);
    Matcher(pre, Tokenize(DropTrailingSlash(rest)))
  }

  /**
   * `gitignore_to_regex(pattern)`: a leading `!` compiles the remainder and
   * moves its ignore matcher into the negate slot.
   */
  function Compile(pattern: string): (r: Rule)
    ensures r.ignore.None? || r.negate.None?
    ensures r.ignore.Some? <==> !(|pattern| > 0 && pattern[0] == '!')
    ensures r.negate.Some? <==> |pattern| > 0 && pattern[0] == '!' && !(|pattern| > 1 && pattern[1] == '!')
    decreases |pattern|
  {
    if |pattern| > 0 && pattern[0] == '!' then Rule(None, Compile(pattern[1..]).ignore)
    else Rule(Some(CompileMatcher(pattern)), None)
  }

  // ---------------------------------------------------------------------------
  // Wildcards
  // ---------------------------------------------------------------------------

  /** Every body matches its own pattern text (each wildcard can match itself). */
  lemma {:induction false} SelfMatch(ts: seq<Token>)
    ensures FullMatch(ts, Spell(ts))
    decreases |ts|
  {
    if |ts| > 0 {
      SelfMatch(ts[1..]);
      var s := Spell(ts);
      assert s == TokenText(ts[0]) + Spell(ts[1..]);
      match ts[0]
      case Lit(c) =>
        assert s[1..] == Spell(ts[1..]);
      case Any =>
        assert s[1..] == Spell(ts[1..]);
      case Star =>
        assert s[1..] == Spell(ts[1..]);
        assert FullMatch(ts, s[1..]);
      case DStar =>
        assert s[1..] == "*" + Spell(ts[1..]);
        assert s[1..][1..] == Spell(ts[1..]);
        assert FullMatch(ts, s[1..][1..]);
        assert FullMatch(ts, s[1..]);
    }
  }

  /** A leading `*` may consume any slash-free stretch before the rest matches. */
  lemma {:induction false} StarConsumes(ts: seq<Token>, s: string, n: nat)
    requires |ts| > 0 && ts[0] == Star
    requires n <= |s| && '/' !in s[..n]
    requires FullMatch(ts[1..], s[n..])
    ensures FullMatch(ts, s)
    decreases n
  {
    if n > 0 {
      assert s[0] == s[..n][0];
      assert '/' !in s[1..][..n - 1] by {
        assert s[1..][..n - 1] == s[..n][1..];
      }
      assert s[1..][n - 1..] == s[n..];
      StarConsumes(ts, s[1..], n - 1);
    }
  }

  /** `*` (regex `[^/]*`) matches exactly the strings without a `/`. */
  lemma {:induction false} StarStaysInSegment(s: string)
    ensures FullMatch([Star], s) <==> '/' !in s
    decreases |s|
  {
    assert [Star][1..] == [];
    if |s| > 0 {
      StarStaysInSegment(s[1..]);
      assert s == [s[0]] + s[1..];
    }
  }

  /** `**` (regex `.*`) matches every string, `/` included. */
  lemma {:induction false} DoubleStarSpansSegments(s: string)
    ensures FullMatch([DStar], s)
    decreases |s|
  {
    assert [DStar][1..] == [];
    if |s| > 0 {
      DoubleStarSpansSegments(s[1..]);
    }
  }

  /** `?` (regex `.`) matches exactly one character, `/` included. */
  lemma AnyIsOneCharacter(s: string)
    ensures FullMatch([Any], s) <==> |s| == 1
  {
    assert [Any][1..] == [];
  }

  // ---------------------------------------------------------------------------
  // Search behaviour
  // ---------------------------------------------------------------------------

  // Under `re.search` the `(.*/)?` prefix is inert: a matcher with it accepts
  // exactly the paths the same body accepts with no prefix at all, so a
  // slash-free pattern is not tied to segment starts.
  lemma AnyDirsPrefixIsInert(body: seq<Token>, p: string)
    ensures Matches(Matcher(AnyDirs, body), p) <==> Matches(Matcher(NoPrefix, body), p)
  {
    forall i | 0 <= i <= |p|
      ensures StartAccepts(AnyDirs, p, i) && StartAccepts(NoPrefix, p, i)
    {
      assert PrefixAccepts(AnyDirs, p, i, i);
      assert PrefixAccepts(NoPrefix, p, i, i);
    }
  }

  /**
   * An unanchored matcher that accepts `p` also accepts `q + p` for every
   * `q`: matching is independent of depth, and since `q` need not end with a
   * `/`, a match may start in the middle of a segment.
   */
  lemma UnanchoredIgnoresWhatPrecedes(m: Matcher, q: string, p: string)
    requires m.prefix != Caret
    requires Matches(m, p)
    ensures Matches(m, q + p)
  {
    var i, j :| 0 <= i <= j <= |p| && StartAccepts(m.prefix, p, i) && FullMatch(m.body, p[i..j]) && EndAccepts(p, j);
    var qp := q + p;
    var i', j' := i + |q|, j + |q|;
    assert qp[i'..j'] == p[i..j];
    assert PrefixAccepts(m.prefix, qp, i', i');
    assert EndAccepts(qp, j') by {
      if j < |p| {
        assert qp[j'] == p[j];
      }
    }
  }

  /** A matcher that accepts a path accepts everything beneath it. */
  lemma MatchCoversDescendants(m: Matcher, p: string, s: string)
    requires Matches(m, p)
    ensures Matches(m, p + "/" + s)
  {
    var i, j :| 0 <= i <= j <= |p| && StartAccepts(m.prefix, p, i) && FullMatch(m.body, p[i..j]) && EndAccepts(p, j);
    var ps := p + "/" + s;
    assert ps[i..j] == p[i..j];
    var k :| 0 <= k <= i && PrefixAccepts(m.prefix, p, k, i);
    assert i > 0 ==> ps[i - 1] == p[i - 1];
    assert PrefixAccepts(m.prefix, ps, k, i);
    assert EndAccepts(ps, j) by {
      if j < |p| {
        assert ps[j] == p[j];
      } else {
        assert ps[j] == '/';
      }
    }
  }

  /** A body made of literals matches only its own text. */
  lemma {:induction false} LiteralBodyMatchesOnlyItself(ts: seq<Token>, s: string)
    requires forall k :: 0 <= k < |ts| ==> ts[k].Lit?
    ensures FullMatch(ts, s) <==> s == Spell(ts)
    decreases |ts|
  {
    if |ts| > 0 {
      assert Spell(ts) == [ts[0].c] + Spell(ts[1..]);
      if |s| > 0 {
        LiteralBodyMatchesOnlyItself(ts[1..], s[1..]);
        assert s == [s[0]] + s[1..];
      }
    }
  }

  /** A literal pattern longer than the path cannot match it. */
  lemma LongLiteralMissesShortPath(m: Matcher, p: string)
    requires forall k :: 0 <= k < |m.body| ==> m.body[k].Lit?
    requires |Spell(m.body)| > |p|
    ensures !Matches(m, p)
  {
    forall i, j | 0 <= i <= j <= |p|
      ensures !FullMatch(m.body, p[i..j])
    {
      LiteralBodyMatchesOnlyItself(m.body, p[i..j]);
    }
  }

  /** Text without wildcard characters translates to literals only. */
  lemma {:induction false} PlainTextIsLiteral(s: string)
    requires '*' !in s && '?' !in s
    ensures forall k :: 0 <= k < |Tokenize(s)| ==> Tokenize(s)[k].Lit?
    decreases |s|
  {
    if |s| > 0 {
      assert s == [s[0]] + s[1..];
      PlainTextIsLiteral(s[1..]);
    }
  }

  /**
   * `/r` where `r` starts with a literal character other than `/` never
   * matches a path that starts with `/` (the regex starts with `^` and that
   * literal, while every path checked starts with `/`).
   */
  lemma LeadingSlashLiteralNeverMatches(r: string, p: string)
    requires |r| > 0 && r[0] != '*' && r[0] != '?' && r[0] != '/'
    requires |p| > 0 && p[0] == '/'
    ensures !Matches(CompileMatcher("/" + r), p)
  {
    var m := CompileMatcher("/" + r);
    assert ("/" + r)[1..] == r;
    var d := DropTrailingSlash(r);
    assert |d| > 0 && d[0] == r[0];
    assert m.body == Tokenize(d);
    assert m.body[0] == Lit(r[0]);
  }

  // A leading slash followed by nothing or by a star does match: the bare
  // slash compiles to `^(/.*)?$`, and a slash followed by one or two stars
  // to `^` and a star that may match nothing, so each of them matches every
  // path starting with a slash.
  lemma RootWildcardsMatchEverything(p: string)
    requires |p| > 0 && p[0] == '/'
    ensures Matches(CompileMatcher("/"), p)
    ensures Matches(CompileMatcher("/*"), p)
    ensures Matches(CompileMatcher("/**"), p)
  {
    assert CompileMatcher("/") == Matcher(Caret, []) by {
      assert "/"[1..] == "";
    }
    assert CompileMatcher("/*") == Matcher(Caret, [Star]) by {
      assert "/*"[1..] == "*";
    }
    assert CompileMatcher("/**") == Matcher(Caret, [DStar]) by {
      assert "/**"[1..] == "**";
    }
    CaretMatchesRoot(Matcher(Caret, []), p);
    CaretMatchesRoot(Matcher(Caret, [Star]), p);
    CaretMatchesRoot(Matcher(Caret, [DStar]), p);
  }

  /** An anchored body that can match nothing matches at the start of a rooted path. */
  lemma CaretMatchesRoot(m: Matcher, p: string)
    requires m.prefix == Caret && FullMatch(m.body, "")
    requires |p| > 0 && p[0] == '/'
    ensures Matches(m, p)
  {
    assert PrefixAccepts(Caret, p, 0, 0);
    assert p[0..0] == "";
  }

  /**
   * The directory-only marker changes nothing: `p/` and `p` accept the same
   * paths, since both compile to the same `(/.*)?$` suffix.
   */
  lemma DirectoryMarkerHasNoEffect(p: string, path: string)
    requires |p| > 0 && p[|p| - 1] != '/'
    ensures Matches(CompileMatcher(p + "/"), path) <==> Matches(CompileMatcher(p), path)
  {
    var withSlash := p + "/";
    if p[0] == '/' {
      assert withSlash[1..] == p[1..] + "/";
      assert DropTrailingSlash(p[1..] + "/") == p[1..];
      assert |p| > 1;
      assert DropTrailingSlash(p[1..]) == p[1..];
    } else {
      assert '/' in withSlash by {
        assert withSlash[|p|] == '/';
      }
      assert DropTrailingSlash(withSlash) == p;
      assert CompileMatcher(withSlash) == Matcher(NoPrefix, Tokenize(p));
      if '/' !in p {
        assert CompileMatcher(p) == Matcher(AnyDirs, Tokenize(p));
        AnyDirsPrefixIsInert(Tokenize(p), path);
      } else {
        assert CompileMatcher(p) == Matcher(NoPrefix, Tokenize(p));
      }
    }
  }

  // ---------------------------------------------------------------------------
  // Worked examples
  // ---------------------------------------------------------------------------

  /** A match of the body at `p[i..j]` that the prefix and suffix admit makes the search succeed. */
  lemma MatchesAt(m: Matcher, p: string, i: nat, j: nat)
    requires i <= j <= |p|
    requires PrefixAccepts(m.prefix, p, i, i) && FullMatch(m.body, p[i..j]) && EndAccepts(p, j)
    ensures Matches(m, p)
  {
  }

  /**
   * An unanchored pattern matches any path that contains its own text (less
   * a trailing `/`) followed by the end of the path or a `/`, wherever that
   * text starts.
   */
  lemma OwnTextMatchesAnywhere(pattern: string, a: string, b: string)
    requires |pattern| > 0 && pattern[0] != '/'
    requires |b| == 0 || b[0] == '/'
    ensures Matches(CompileMatcher(pattern), a + DropTrailingSlash(pattern) + b)
  {
    var w := DropTrailingSlash(pattern);
    var m := CompileMatcher(pattern);
    assert m.body == Tokenize(w);
    SelfMatch(m.body);
    var p := a + w + b;
    assert p[|a|..|a| + |w|] == w;
    assert |b| > 0 ==> p[|a| + |w|] == b[0];
    MatchesAt(m, p, |a|, |a| + |w|);
  }

  /**
   * `*ext` (no other wildcard, no `/`) matches every path whose last segment
   * ends with `ext`, at any depth.
   */
  lemma StarSuffixMatches(ext: string, a: string, name: string)
    requires |ext| > 0 && '*' !in ext && '?' !in ext && '/' !in ext
    requires '/' !in name
    ensures Matches(CompileMatcher("*" + ext), a + name + ext)
  {
    StarPatternCompiles(ext);
    SelfMatch(Tokenize(ext));
    StarBodyMatchesSuffix(Tokenize(ext), ext, a, name);
  }

  /** A `*` token followed by a body matching `ext` finds `name + ext` after any `a`. */
  lemma StarBodyMatchesSuffix(tail: seq<Token>, ext: string, a: string, name: string)
    requires FullMatch(tail, ext) && '/' !in name
    ensures Matches(Matcher(AnyDirs, [Star] + tail), a + name + ext)
  {
    var body := [Star] + tail;
    assert body[0] == Star && body[1..] == tail;
    var p := a + name + ext;
    var s := p[|a|..|p|];
    assert s == name + ext;
    assert s[..|name|] == name && s[|name|..] == ext;
    StarConsumes(body, s, |name|);
    MatchesAt(Matcher(AnyDirs, body), p, |a|, |p|);
  }

  /** `*ext` compiles to an unanchored matcher: a `*` token, then the tokens of `ext`. */
  lemma StarPatternCompiles(ext: string)
    requires |ext| > 0 && '*' !in ext && '?' !in ext && '/' !in ext
    ensures CompileMatcher("*" + ext) == Matcher(AnyDirs, [Star] + Tokenize(ext))
  {
    var pat := "*" + ext;
    assert pat[1..] == ext && pat[0] == '*';
    assert '/' !in pat;
    assert pat[|pat| - 1] == ext[|ext| - 1];
  }

  /** `env/` matches inside the segment `myenv`: the match is not segment-aligned. */
  lemma EnvMatchesInsideSegment()
    ensures Matches(CompileMatcher("env/"), "/src/myenv/a.py")
  {
    var pat, p := "env/", "/src/myenv/a.py";
    assert DropTrailingSlash(pat) == "env";
    assert p == "/src/my" + "env" + "/a.py";
    OwnTextMatchesAnywhere(pat, "/src/my", "/a.py");
  }

  /**
   * A pattern with an inner `/` is not tied to the root: it gets no `^`, and
   * it matches its own text as whole segments at any depth, as
   * `storage/logs/` does in `/app/storage/logs/x.log`.
   */
  lemma InnerSlashIsNotRooted(pattern: string, a: string, b: string)
    requires |pattern| > 0 && pattern[0] != '/' && '/' in pattern
    requires |b| == 0 || b[0] == '/'
    ensures CompileMatcher(pattern).prefix == NoPrefix
    ensures Matches(CompileMatcher(pattern), a + DropTrailingSlash(pattern) + b)
  {
    OwnTextMatchesAnywhere(pattern, a, b);
  }

  // ---------------------------------------------------------------------------
  // What a body cannot match
  // ---------------------------------------------------------------------------

  /** Every literal of a body occurs in any string the body matches. */
  lemma {:induction false} LitOccurs(ts: seq<Token>, s: string, c: char)
    requires FullMatch(ts, s) && Lit(c) in ts
    ensures c in s
    decreases |ts|, |s|
  {
    assert ts == [ts[0]] + ts[1..];
    match ts[0]
    case Lit(d) =>
      if d != c {
        LitOccurs(ts[1..], s[1..], c);
      }
    case Any =>
      LitOccurs(ts[1..], s[1..], c);
    case Star =>
      if FullMatch(ts[1..], s) { LitOccurs(ts[1..], s, c); } else { LitOccurs(ts, s[1..], c); }
    case DStar =>
      if FullMatch(ts[1..], s) { LitOccurs(ts[1..], s, c); } else { LitOccurs(ts, s[1..], c); }
  }

  /** A body ending in a literal only matches strings ending in that character. */
  lemma {:induction false} LastLitEnds(ts: seq<Token>, s: string, c: char)
    requires |ts| > 0 && ts[|ts| - 1] == Lit(c) && FullMatch(ts, s)
    ensures |s| > 0 && s[|s| - 1] == c
    decreases |ts|, |s|
  {
    if |ts| == 1 {
      assert ts[0] == Lit(c);
    } else {
      var tail := ts[1..];
      assert tail[|tail| - 1] == Lit(c);
      match ts[0]
      case Lit(_) =>
        LastLitEnds(tail, s[1..], c);
      case Any =>
        LastLitEnds(tail, s[1..], c);
      case Star =>
        if FullMatch(tail, s) { LastLitEnds(tail, s, c); } else { LastLitEnds(ts, s[1..], c); }
      case DStar =>
        if FullMatch(tail, s) { LastLitEnds(tail, s, c); } else { LastLitEnds(ts, s[1..], c); }
    }
  }

  /** A character of the spelling other than a wildcard comes from a literal token. */
  lemma {:induction false} SpelledCharIsLit(ts: seq<Token>, k: nat)
    requires k < |Spell(ts)| && Spell(ts)[k] != '*' && Spell(ts)[k] != '?'
    ensures Lit(Spell(ts)[k]) in ts
    decreases |ts|
  {
    var head := TokenText(ts[0]);
    assert Spell(ts) == head + Spell(ts[1..]);
    if k < |head| {
      assert ts[0] == Lit(Spell(ts)[k]);
    } else {
      assert Spell(ts)[k] == Spell(ts[1..])[k - |head|];
      SpelledCharIsLit(ts[1..], k - |head|);
    }
  }

  /** Without a leading `/`, the body spells the line less its trailing `/`. */
  lemma BodySpellsText(pattern: string)
    requires |pattern| > 0 && pattern[0] != '/'
    ensures Spell(CompileMatcher(pattern).body) == DropTrailingSlash(pattern)
  {
  }

  /**
   * A pattern holding a literal character that a path lacks never matches
   * it, wherever the wildcards put the match.
   */
  lemma ForeignCharNeverMatches(pattern: string, p: string, k: nat)
    requires |pattern| > 0 && pattern[0] != '/'
    requires k < |pattern| && pattern[k] !in p
    requires pattern[k] != '*' && pattern[k] != '?' && pattern[k] != '/'
    ensures !Matches(CompileMatcher(pattern), p)
  {
    var m := CompileMatcher(pattern);
    var w := DropTrailingSlash(pattern);
    BodySpellsText(pattern);
    assert k < |w| && w[k] == pattern[k];
    SpelledCharIsLit(m.body, k);
    if Matches(m, p) {
      var i, j :| 0 <= i <= j <= |p| && StartAccepts(m.prefix, p, i) && FullMatch(m.body, p[i..j]) && EndAccepts(p, j);
      LitOccurs(m.body, p[i..j], pattern[k]);
      assert false;
    }
  }

  /**
   * A pattern whose text ends in a literal other than the last character of
   * a one-segment path `/name` never matches it: the match has to end at the
   * end of the path, since `/name` has no other `/` to stop at.
   */
  lemma LastCharNeverMatches(pattern: string, name: string)
    requires |pattern| > 0 && pattern[0] != '/'
    requires var w := DropTrailingSlash(pattern); |w| > 0 && w[|w| - 1] != '*' && w[|w| - 1] != '?'
    requires |name| > 0 && '/' !in name && name[|name| - 1] != DropTrailingSlash(pattern)[|DropTrailingSlash(pattern)| - 1]
    ensures !Matches(CompileMatcher(pattern), "/" + name)
  {
    var w := DropTrailingSlash(pattern);
    BodyEndsInLastChar(pattern);
    EndingLitMissesName(CompileMatcher(pattern), name, w[|w| - 1]);
  }

  /** The compiled body of such a pattern ends in its last character, as a literal. */
  lemma BodyEndsInLastChar(pattern: string)
    requires |pattern| > 0 && pattern[0] != '/'
    requires var w := DropTrailingSlash(pattern); |w| > 0 && w[|w| - 1] != '*' && w[|w| - 1] != '?'
    ensures var body := CompileMatcher(pattern).body; var w := DropTrailingSlash(pattern);
      |body| > 0 && body[|body| - 1] == Lit(w[|w| - 1])
  {
    BodySpellsText(pattern);
    SpellingEndsInLit(CompileMatcher(pattern).body, DropTrailingSlash(pattern));
  }

  /** Tokens spelling `w`, whose last character is no wildcard, end in that character as a literal. */
  lemma SpellingEndsInLit(ts: seq<Token>, w: string)
    requires Spell(ts) == w && |w| > 0 && w[|w| - 1] != '*' && w[|w| - 1] != '?'
    ensures |ts| > 0 && ts[|ts| - 1] == Lit(w[|w| - 1])
  {
    LastSpelledIsLast(ts);
  }

  /** A matcher whose body ends in the literal `c` never matches `/name` when `name` does not end in `c`. */
  lemma EndingLitMissesName(m: Matcher, name: string, c: char)
    requires |m.body| > 0 && m.body[|m.body| - 1] == Lit(c)
    requires |name| > 0 && '/' !in name && name[|name| - 1] != c
    ensures !Matches(m, "/" + name)
  {
    var p := "/" + name;
    if Matches(m, p) {
      var i, j :| 0 <= i <= j <= |p| && StartAccepts(m.prefix, p, i) && FullMatch(m.body, p[i..j]) && EndAccepts(p, j);
      MatchEndsWithLastLit(m.body, name, i, j, c);
    }
  }

  /** A body ending in the literal `c` can match inside `/name` only if `name` ends in `c`. */
  lemma MatchEndsWithLastLit(ts: seq<Token>, name: string, i: int, j: int, c: char)
    requires |name| > 0 && '/' !in name && 0 <= i <= j <= |name| + 1
    requires |ts| > 0 && ts[|ts| - 1] == Lit(c)
    requires FullMatch(ts, ("/" + name)[i..j]) && EndAccepts("/" + name, j)
    ensures name[|name| - 1] == c
  {
    var p := "/" + name;
    OneSegmentEnds(name, j);
    LastLitEnds(ts, p[i..j], c);
    assert p[i..j][j - i - 1] == p[j - 1];
  }

  /** In `/name` a match can only end at the very start or at the very end. */
  lemma OneSegmentEnds(name: string, j: int)
    requires '/' !in name && 0 <= j <= |name| + 1 && EndAccepts("/" + name, j)
    ensures j == 0 || j == |name| + 1
  {
  }

  /** The last character of a spelling that is not a wildcard comes from the last token, a literal. */
  lemma {:induction false} LastSpelledIsLast(ts: seq<Token>)
    requires |Spell(ts)| > 0
    requires Spell(ts)[|Spell(ts)| - 1] != '*' && Spell(ts)[|Spell(ts)| - 1] != '?'
    ensures |ts| > 0 && ts[|ts| - 1] == Lit(Spell(ts)[|Spell(ts)| - 1])
    decreases |ts|
  {
    var tail := ts[1..];
    assert Spell(ts) == TokenText(ts[0]) + Spell(tail);
    if |tail| == 0 {
      assert Spell(tail) == "";
    } else {
      assert Spell(tail) == TokenText(tail[0]) + Spell(tail[1..]);
      LastSpelledIsLast(tail);
    }
  }

  /**
   * `?` after a leading `/` can match the `/` itself: `/?name` matches `/name`
   * although the pattern is anchored with `^`.
   */
  lemma AnyMatchesTheRootSlash(name: string)
    requires |name| > 0 && '*' !in name && '?' !in name && '/' !in name
    ensures Matches(CompileMatcher("/?" + name), "/" + name)
  {
    var pattern, p := "/?" + name, "/" + name;
    var rest := "?" + name;
    assert pattern[0] == '/' && pattern[1..] == rest;
    assert rest[|rest| - 1] == name[|name| - 1];
    assert DropTrailingSlash(rest) == rest;
    assert rest[0] == '?' && rest[1..] == name;
    var body := Tokenize(name);
    assert CompileMatcher(pattern) == Matcher(Caret, [Any] + body);
    PlainTextIsLiteral(name);
    SelfMatch(body);
    assert ([Any] + body)[1..] == body;
    assert p[1..] == name;
    assert FullMatch([Any] + body, p);
    assert PrefixAccepts(Caret, p, 0, 0);
    assert p[0..|p|] == p;
  }
}

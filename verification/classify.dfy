/**
 * The two binary-file tests of clipbase/utils.py: by extension (through a
 * model of `os.path.splitext` on POSIX paths) and by the first 1024 bytes of
 * the file's content.
 */
module Classify {
  import opened Wrappers
  import Strings
  import Config

  newtype byte = b: int | 0 <= b < 256

  // ---------------------------------------------------------------------------
  // os.path.splitext
  // ---------------------------------------------------------------------------

  /** `s.rfind(c)`: the last index holding `c`, or -1. */
  function RFind(s: string, c: char): (r: int)
    ensures -1 <= r < |s|
    ensures r == -1 ==> c !in s
    ensures r >= 0 ==> s[r] == c && forall k :: r < k < |s| ==> s[k] != c
    decreases |s|
  {
    if |s| == 0 then -1
    else if s[|s| - 1] == c then |s| - 1
    else RFind(s[..|s| - 1], c)
  }

  /** Position `i` lies in the last segment of `p`: no `/` at or after it. */
  predicate InLastSegment(p: string, i: int) {
    0 <= i < |p| && forall l :: i <= l < |p| ==> p[l] != '/'
  }

  /**
   * `p` has an extension: its last segment holds a `.` preceded, within the
   * segment, by some character other than `.` (leading dots do not count).
   */
  predicate HasExtension(p: string) {
    exists m, k :: 0 <= m < k < |p| && InLastSegment(p, m) && p[m] != '.' && p[k] == '.'
  }

  /** Some position in `[from, to)` holds a character other than `.`. */
  predicate SomeNonDot(p: string, from: int, to: int)
    requires 0 <= from && to <= |p|
  {
    exists k :: from <= k < to && p[k] != '.'
  }

  /**
   * `posixpath.splitext(p)`: split before the last `.` when it comes after
   * the last `/` and something other than dots precedes it in its segment;
   * otherwise the extension is empty.
   */
  function SplitExt(p: string): (r: (string, string))
    ensures r.0 + r.1 == p
    ensures |r.1| > 0 ==> r.1[0] == '.' && '.' !in r.1[1..] && '/' !in r.1
    ensures |r.1| > 0 <==> HasExtension(p)
  {
    var sep, dot := RFind(p, '/'), RFind(p, '.');
    SplitExtCondition(p);
    if dot > sep && SomeNonDot(p, sep + 1, dot) then
      assert p[..dot] + p[dot..] == p;
      assert forall l :: 0 <= l < |p[dot..]| ==> p[dot..][l] == p[dot + l];
      (p[..dot], p[dot..])
    else (p, "")
  }

  /** The condition `SplitExt` tests is exactly `HasExtension`. */
  lemma SplitExtCondition(p: string)
    ensures var sep, dot := RFind(p, '/'), RFind(p, '.');
      (dot > sep && SomeNonDot(p, sep + 1, dot)) <==> HasExtension(p)
  {
    var sep, dot := RFind(p, '/'), RFind(p, '.');
    if dot > sep && SomeNonDot(p, sep + 1, dot) {
      ConditionGivesExtension(p);
    }
    if HasExtension(p) {
      HasExtensionBounds(p);
    }
  }

  /** A non-dot character between the last `/` and a later last `.` witnesses `HasExtension`. */
  lemma ConditionGivesExtension(p: string)
    requires RFind(p, '/') < RFind(p, '.') && SomeNonDot(p, RFind(p, '/') + 1, RFind(p, '.'))
    ensures HasExtension(p)
  {
    var sep, dot := RFind(p, '/'), RFind(p, '.');
    var m :| sep + 1 <= m < dot && p[m] != '.';
    assert InLastSegment(p, m);
    assert 0 <= m < dot < |p| && InLastSegment(p, m) && p[m] != '.' && p[dot] == '.';
  }

  /** Where the witnesses of `HasExtension` lie relative to the last `/` and the last `.`. */
  lemma HasExtensionBounds(p: string)
    requires HasExtension(p)
    ensures RFind(p, '/') < RFind(p, '.') && SomeNonDot(p, RFind(p, '/') + 1, RFind(p, '.'))
  {
    var sep, dot := RFind(p, '/'), RFind(p, '.');
    var m, k :| 0 <= m < k < |p| && InLastSegment(p, m) && p[m] != '.' && p[k] == '.';
    assert sep < m;
    assert k <= dot;
  }

  // ---------------------------------------------------------------------------
  // The two tests
  // ---------------------------------------------------------------------------

  /** `is_binary_by_extension`: the lower-cased extension is a binary one. */
  function IsBinaryByExtension(path: string): (r: bool)
    ensures r ==> HasExtension(path)
  {
    Strings.Lower(SplitExt(path).1) in Config.BinaryExtensions
  }

  /** `f.read(1024)`: the first 1024 bytes, or all of them when there are fewer. */
  function Chunk(data: seq<byte>): (r: seq<byte>)
    ensures |r| <= 1024 && r <= data
    ensures |data| <= 1024 ==> r == data
    ensures |data| > 1024 ==> r == data[..1024]
  {
    if |data| <= 1024 then data else data[..1024]
  }

  /**
   * `is_binary_by_content`: `None` stands for a file that could not be
   * opened or read, which counts as binary; otherwise the file is binary
   * exactly when a zero byte occurs among its first 1024 bytes.
   */
  function IsBinaryByContent(data: Option<seq<byte>>): (r: bool)
    ensures data.None? ==> r
    ensures data.Some? ==> (r <==> exists k :: 0 <= k < |data.value| && k < 1024 && data.value[k] == 0)
  {
    match data
    case None => true
    case Some(bytes) =>
      var chunk := Chunk(bytes);
      assert forall k :: 0 <= k < |chunk| ==> chunk[k] == bytes[k];
      0 in chunk
  }

  // ---------------------------------------------------------------------------
  // Properties
  // ---------------------------------------------------------------------------

  /** Lower-casing leaves `.` and `/` where they are. */
  lemma LowerKeepsSeparators(p: string)
    ensures forall k :: 0 <= k < |p| ==> (Strings.Lower(p)[k] == '.' <==> p[k] == '.')
    ensures forall k :: 0 <= k < |p| ==> (Strings.Lower(p)[k] == '/' <==> p[k] == '/')
  {
  }

  /** Lower-casing a path only lower-cases its extension. */
  lemma SplitExtOfLower(p: string)
    ensures SplitExt(Strings.Lower(p)).1 == Strings.Lower(SplitExt(p).1)
  {
    var q := Strings.Lower(p);
    LowerKeepsSeparators(p);
    assert RFind(q, '/') == RFind(p, '/') by {
      RFindOfLower(p, '/');
    }
    assert RFind(q, '.') == RFind(p, '.') by {
      RFindOfLower(p, '.');
    }
    var sep, dot := RFind(p, '/'), RFind(p, '.');
    if dot > sep {
      SomeNonDotOfLower(p, sep + 1, dot);
      assert q[dot..] == Strings.Lower(p[dot..]);
    }
  }

  /** Lower-casing keeps which positions hold a `.`, so `SomeNonDot` is unchanged. */
  lemma SomeNonDotOfLower(p: string, from: int, to: int)
    requires 0 <= from && to <= |p|
    ensures SomeNonDot(Strings.Lower(p), from, to) <==> SomeNonDot(p, from, to)
  {
    var q := Strings.Lower(p);
    LowerKeepsSeparators(p);
    if SomeNonDot(p, from, to) {
      var k :| from <= k < to && p[k] != '.';
      assert q[k] != '.';
    }
    if SomeNonDot(q, from, to) {
      var k :| from <= k < to && q[k] != '.';
      assert p[k] != '.';
    }
  }

  /** Lower-casing keeps the positions of `.` and `/`, so `rfind` of either is unchanged. */
  lemma {:induction false} RFindOfLower(p: string, c: char)
    requires c == '.' || c == '/'
    ensures RFind(Strings.Lower(p), c) == RFind(p, c)
    decreases |p|
  {
    if |p| > 0 {
      var q := Strings.Lower(p);
      assert q[..|q| - 1] == Strings.Lower(p[..|p| - 1]);
      RFindOfLower(p[..|p| - 1], c);
    }
  }

  /**
   * The extension test ignores case: a path and its lower-cased form are
   * classified alike (so `A.PNG` and `a.png` agree).
   */
  lemma ExtensionTestIgnoresCase(p: string)
    ensures IsBinaryByExtension(Strings.Lower(p)) == IsBinaryByExtension(p)
  {
    SplitExtOfLower(p);
    Strings.LowerIdempotent(SplitExt(p).1);
  }

  /** A name made of leading dots and a dot-free rest (like `.png`) has no extension. */
  lemma LeadingDotsAreNoExtension(dir: string, dots: string, rest: string)
    requires forall k :: 0 <= k < |dots| ==> dots[k] == '.'
    requires '.' !in rest && '/' !in rest
    ensures SplitExt(dir + "/" + dots + rest) == (dir + "/" + dots + rest, "")
    ensures SplitExt(dots + rest) == (dots + rest, "")
  {
    var p := dir + "/" + dots + rest;
    forall m, k | 0 <= m < k < |p| && InLastSegment(p, m) && p[k] == '.'
      ensures p[m] == '.'
    {
      assert p[|dir|] == '/';
      assert k < |dir| + 1 + |dots|;
      assert p[m] == dots[m - |dir| - 1];
    }
    var q := dots + rest;
    forall m, k | 0 <= m < k < |q| && InLastSegment(q, m) && q[k] == '.'
      ensures q[m] == '.'
    {
      assert k < |dots|;
    }
  }

  /** A path whose last segment has a non-dot character before `.ext` splits off exactly `.ext`. */
  lemma SplitsOffExtension(root: string, ext: string)
    requires |ext| > 0 && ext[0] == '.' && '.' !in ext[1..] && '/' !in ext
    requires |root| > 0 && root[|root| - 1] != '.' && root[|root| - 1] != '/'
    ensures SplitExt(root + ext) == (root, ext)
  {
    var p := root + ext;
    assert InLastSegment(p, |root| - 1) by {
      forall l | |root| - 1 <= l < |p|
        ensures p[l] != '/'
      {
        if l >= |root| {
          assert p[l] == ext[l - |root|];
        }
      }
    }
    assert p[|root|] == '.';
    assert HasExtension(p);
    var r := SplitExt(p);
    assert |r.1| > 0;
    assert r.1 == p[|root|..] == ext;
  }

  /** The content test looks at the first 1024 bytes only. */
  lemma ContentTestReadsOneChunk(head: seq<byte>, tail: seq<byte>)
    requires |head| >= 1024
    ensures IsBinaryByContent(Some(head + tail)) == IsBinaryByContent(Some(head))
  {
    var both := head + tail;
    assert forall k :: 0 <= k < 1024 ==> both[k] == head[k];
  }

  // Spelling facts about the three example names, kept apart for proof cost.
  lemma PngSpelling(upper: string, lower: string, dotfile: string)
    requires upper == "A.PNG" && lower == "a.png" && dotfile == ".png"
    ensures lower == "a" + ".png" && Strings.Lower(upper) == lower
    ensures dotfile == "." + "png" && '.' !in "png" && '/' !in "png"
    ensures ".png"[0] == '.' && '.' !in ".png"[1..] && '/' !in ".png"
    ensures Strings.Lower(".png") == Config.BinaryExtensions[0]
    ensures Strings.Lower("") !in Config.BinaryExtensions
  {
  }

  /** `A.PNG` and `a.png` are binary by extension; the dotfile `.png` is not. */
  lemma PngExamples(upper: string, lower: string, dotfile: string)
    requires upper == "A.PNG" && lower == "a.png" && dotfile == ".png"
    ensures !IsBinaryByExtension(dotfile)
    ensures IsBinaryByExtension(lower)
    ensures IsBinaryByExtension(upper)
  {
    PngSpelling(upper, lower, dotfile);
    SplitsOffExtension("a", ".png");
    ExtensionTestIgnoresCase(upper);
    LeadingDotsAreNoExtension("", ".", "png");
  }
}

/**
 * String helpers the Python standard library provides to the tool: the
 * ordering `sorted()` uses on `str`, `str.split`, `str.join`,
 * `str.splitlines` and `str.lower`.
 */
module Strings {

  // ---------------------------------------------------------------------------
  // Ordering: Python compares `str` values lexicographically by code point.
  // ---------------------------------------------------------------------------

  /** `a <= b` on Python strings. */
  predicate Below(a: string, b: string)
    decreases |a|
  {
    |a| == 0 || (|b| > 0 && (a[0] < b[0] || (a[0] == b[0] && Below(a[1..], b[1..]))))
  }

  lemma BelowReflexive(a: string)
    ensures Below(a, a)
    decreases |a|
  {
    if |a| > 0 {
      BelowReflexive(a[1..]);
    }
  }

  lemma BelowAntisymmetric(a: string, b: string)
    requires Below(a, b) && Below(b, a)
    ensures a == b
    decreases |a|
  {
    if |a| > 0 {
      BelowAntisymmetric(a[1..], b[1..]);
      assert a == [a[0]] + a[1..];
      assert b == [b[0]] + b[1..];
    }
  }

  lemma BelowTransitive(a: string, b: string, c: string)
    requires Below(a, b) && Below(b, c)
    ensures Below(a, c)
    decreases |a|
  {
    if |a| > 0 && a[0] == b[0] && b[0] == c[0] {
      BelowTransitive(a[1..], b[1..], c[1..]);
    }
  }

  lemma BelowTotal(a: string, b: string)
    ensures Below(a, b) || Below(b, a)
    decreases |a|
  {
    if |a| > 0 && |b| > 0 && a[0] == b[0] {
      BelowTotal(a[1..], b[1..]);
    }
  }

  lemma BelowIsAntisymmetric()
    ensures forall a, b :: Below(a, b) && Below(b, a) ==> a == b
  {
    forall a, b | Below(a, b) && Below(b, a)
      ensures a == b
    {
      BelowAntisymmetric(a, b);
    }
  }

  /** Strictly increasing: sorted and free of repetitions. */
  predicate StrictlySorted(s: seq<string>) {
    forall i, j :: 0 <= i < j < |s| ==> Below(s[i], s[j]) && s[i] != s[j]
  }

  /** Every non-empty finite set of strings has a least element. */
  lemma LeastExists(s: set<string>)
    requires s != {}
    ensures exists m :: m in s && forall x :: x in s ==> Below(m, x)
    decreases |s|
  {
    var y :| y in s;
    if s == {y} {
      BelowReflexive(y);
    } else {
      LeastExists(s - {y});
      var m :| m in s - {y} && forall x :: x in s - {y} ==> Below(m, x);
      BelowTotal(m, y);
      if Below(m, y) {
        assert forall x :: x in s ==> Below(m, x);
      } else {
        forall x | x in s
          ensures Below(y, x)
        {
          if x == y {
            BelowReflexive(y);
          } else {
            BelowTransitive(y, m, x);
          }
        }
      }
    }
  }

  /** The least element of a non-empty set of strings. */
  function Least(s: set<string>): (m: string)
    requires s != {}
    ensures m in s
    ensures forall x :: x in s ==> Below(m, x)
  {
    LeastExists(s);
    BelowIsAntisymmetric();
    var m :| m in s && forall x :: x in s ==> Below(m, x);
    m
  }

  /** `sorted(s)` for a set of distinct strings (the keys of a dict). */
  function SortedSet(s: set<string>): (r: seq<string>)
    ensures StrictlySorted(r)
    ensures forall x :: x in r <==> x in s
    ensures |r| == |s|
    decreases |s|
  {
    if s == {} then []
    else
      var m := Least(s);
      var rest := SortedSet(s - {m});
      assert forall j :: 0 <= j < |rest| ==> rest[j] in s - {m};
      [m] + rest
  }

  /** A strictly sorted sequence is determined by its elements. */
  lemma {:induction false} StrictlySortedUnique(a: seq<string>, b: seq<string>)
    requires StrictlySorted(a) && StrictlySorted(b)
    requires forall x :: x in a <==> x in b
    ensures a == b
    decreases |a|
  {
    assert |a| > 0 ==> a[0] in b;
    assert |b| > 0 ==> b[0] in a;
    if |a| > 0 && |b| > 0 {
      var i :| 0 <= i < |b| && b[i] == a[0];
      var j :| 0 <= j < |a| && a[j] == b[0];
      assert Below(b[0], a[0]) by {
        if i > 0 { } else { BelowReflexive(b[0]); }
      }
      assert Below(a[0], b[0]) by {
        if j > 0 { } else { BelowReflexive(a[0]); }
      }
      BelowAntisymmetric(a[0], b[0]);
      forall x
        ensures x in a[1..] <==> x in b[1..]
      {
        if x in a[1..] {
          var k :| 1 <= k < |a| && a[k] == x;
          assert x != a[0];
          assert x in b;
          var l :| 0 <= l < |b| && b[l] == x;
          assert l != 0;
        }
        if x in b[1..] {
          var k :| 1 <= k < |b| && b[k] == x;
          assert x != b[0];
          assert x in a;
          var l :| 0 <= l < |a| && a[l] == x;
          assert l != 0;
        }
      }
      StrictlySortedUnique(a[1..], b[1..]);
      assert a == [a[0]] + a[1..];
      assert b == [b[0]] + b[1..];
    }
  }

  // ---------------------------------------------------------------------------
  // str.split(sep) and sep.join(parts)
  // ---------------------------------------------------------------------------

  /** `s.split(sep)`: the pieces between occurrences of `sep`, empty ones included. */
  function Split(s: string, sep: char): (r: seq<string>)
    ensures |r| >= 1
    ensures forall k :: 0 <= k < |r| ==> sep !in r[k]
    decreases |s|
  {
    if |s| == 0 then [""]
    else if s[0] == sep then [""] + Split(s[1..], sep)
    else
      var rest := Split(s[1..], sep);
      [[s[0]] + rest[0]] + rest[1..]
  }

  /** `sep.join(parts)`. */
  function Join(parts: seq<string>, sep: char): string
    decreases |parts|
  {
    if |parts| == 0 then ""
    else if |parts| == 1 then parts[0]
    else parts[0] + [sep] + Join(parts[1..], sep)
  }

  /** Splitting and re-joining on the same separator gives back the string. */
  lemma {:induction false} JoinSplit(s: string, sep: char)
    ensures Join(Split(s, sep), sep) == s
    decreases |s|
  {
    if |s| > 0 {
      JoinSplit(s[1..], sep);
      var rest := Split(s[1..], sep);
      if s[0] == sep {
        assert s == [sep] + s[1..];
      } else {
        if |rest| == 1 {
          assert s == [s[0]] + rest[0];
        } else {
          assert rest == [rest[0]] + rest[1..];
          assert Join(rest, sep) == rest[0] + [sep] + Join(rest[1..], sep);
          assert s == [s[0]] + rest[0] + [sep] + Join(rest[1..], sep);
        }
      }
    }
  }

  /** Joining two non-empty runs of parts puts one separator between their joins. */
  lemma {:induction false} JoinAppend(a: seq<string>, b: seq<string>, sep: char)
    requires |a| > 0 && |b| > 0
    ensures Join(a + b, sep) == Join(a, sep) + [sep] + Join(b, sep)
    decreases |a|
  {
    assert (a + b)[0] == a[0];
    if |a| > 1 {
      assert (a + b)[1..] == a[1..] + b;
      JoinAppend(a[1..], b, sep);
    } else {
      assert (a + b)[1..] == b;
    }
  }

  /** Splitting a string that does not contain the separator gives it back whole. */
  lemma {:induction false} SplitWithoutSep(s: string, sep: char)
    requires sep !in s
    ensures Split(s, sep) == [s]
    decreases |s|
  {
    if |s| > 0 {
      assert sep !in s[1..];
      SplitWithoutSep(s[1..], sep);
      assert s == [s[0]] + s[1..];
    }
  }

  /** A piece free of the separator followed by the separator starts the split. */
  lemma {:induction false} SplitCons(a: string, sep: char, b: string)
    requires sep !in a
    ensures Split(a + [sep] + b, sep) == [a] + Split(b, sep)
    decreases |a|
  {
    if |a| == 0 {
      assert a + [sep] + b == [sep] + b;
      assert (a + [sep] + b)[1..] == b;
    } else {
      assert (a + [sep] + b)[1..] == a[1..] + [sep] + b;
      assert sep !in a[1..];
      SplitCons(a[1..], sep, b);
      assert [a[0]] + a[1..] == a;
    }
  }

  // ---------------------------------------------------------------------------
  // str.splitlines()
  // ---------------------------------------------------------------------------

  /** The characters `str.splitlines` treats as line boundaries. */
  const LineBreaks: set<char> :=
    {'\n', '\r', '\U{000B}', '\U{000C}', '\U{001C}', '\U{001D}', '\U{001E}', '\U{0085}', '\U{2028}', '\U{2029}'}

  predicate IsLineBreak(c: char) {
    c in LineBreaks
  }

  predicate HasLineBreak(s: string) {
    exists i :: 0 <= i < |s| && IsLineBreak(s[i])
  }

  /** Index of the first line boundary in `s`; `|s|` when there is none. */
  function FirstBreak(s: string): (i: nat)
    ensures i <= |s|
    ensures forall k :: 0 <= k < i ==> !IsLineBreak(s[k])
    ensures i < |s| ==> IsLineBreak(s[i])
    decreases |s|
  {
    if |s| == 0 || IsLineBreak(s[0]) then 0 else 1 + FirstBreak(s[1..])
  }

  /**
   * `s.splitlines()`: the lines of `s` without their terminators; `"\r\n"`
   * counts as one terminator and a final terminator opens no extra line.
   */
  function SplitLines(s: string): (r: seq<string>)
    ensures forall k :: 0 <= k < |r| ==> !HasLineBreak(r[k])
    ensures |s| == 0 <==> |r| == 0
    decreases |s|
  {
    if |s| == 0 then []
    else
      var i := FirstBreak(s);
      if i == |s| then [s]
      else
        var width := if s[i] == '\r' && i + 1 < |s| && s[i + 1] == '\n' then 2 else 1;
        [s[..i]] + SplitLines(s[i + width..])
  }

  /** `s` without one trailing `'\n'`, if it has one. */
  function ChopNewline(s: string): (r: string)
    ensures s == r || s == r + "\n"
    ensures |s| > 0 && s[|s| - 1] == '\n' ==> |r| == |s| - 1
  {
    if |s| > 0 && s[|s| - 1] == '\n' then s[..|s| - 1] else s
  }

  /**
   * When `'\n'` is the only line boundary in `s`, splitting into lines and
   * joining with `"\n"` gives back `s`, less one final `'\n'`.
   */
  lemma {:induction false} JoinSplitLines(s: string)
    requires OnlyNewlines(s)
    ensures Join(SplitLines(s), '\n') == ChopNewline(s)
    decreases |s|
  {
    if |s| > 0 {
      var i := FirstBreak(s);
      if i == |s| {
        assert SplitLines(s) == [s];
        assert !IsLineBreak(s[|s| - 1]);
      } else {
        OnlyNewlinesSuffix(s, i + 1);
        JoinSplitLines(s[i + 1..]);
        JoinSplitLinesStep(s, i);
      }
    }
  }

  /** The inductive step of `JoinSplitLines`: one line, then the rest. */
  lemma JoinSplitLinesStep(s: string, i: nat)
    requires OnlyNewlines(s) && i == FirstBreak(s) && i < |s|
    requires Join(SplitLines(s[i + 1..]), '\n') == ChopNewline(s[i + 1..])
    ensures Join(SplitLines(s), '\n') == ChopNewline(s)
  {
    var line, rest := s[..i], s[i + 1..];
    SplitLinesAtNewline(s, i);
    var lines := SplitLines(rest);
    Around(s, i);
    assert [s[i]] == "\n";
    ChopAfterLine(line, rest);
    LinesJoin(line, lines);
    assert |rest| == 0 <==> |lines| == 0;
  }

  /** `s` is what precedes position `i`, the character there, and what follows. */
  lemma Around(s: string, i: nat)
    requires i < |s|
    ensures s == s[..i] + [s[i]] + s[i + 1..]
  {
    assert s[..i] + [s[i]] == s[..i + 1];
  }

  /** Chopping a line-and-newline prefix off commutes with `ChopNewline`. */
  lemma ChopAfterLine(line: string, rest: string)
    ensures |rest| == 0 ==> ChopNewline(line + "\n" + rest) == line
    ensures |rest| > 0 ==> ChopNewline(line + "\n" + rest) == line + "\n" + ChopNewline(rest)
  {
    var s := line + "\n" + rest;
    if |rest| > 0 {
      assert s[|s| - 1] == rest[|rest| - 1];
      if rest[|rest| - 1] == '\n' {
        assert s[..|s| - 1] == line + "\n" + rest[..|rest| - 1];
      }
    } else {
      assert s == line + "\n";
      assert s[..|s| - 1] == line;
    }
  }

  /** `'\n'` is the only line boundary occurring in `s`. */
  predicate OnlyNewlines(s: string) {
    forall k :: 0 <= k < |s| && IsLineBreak(s[k]) ==> s[k] == '\n'
  }

  lemma OnlyNewlinesSuffix(s: string, n: nat)
    requires OnlyNewlines(s) && n <= |s|
    ensures OnlyNewlines(s[n..])
  {
    forall k | 0 <= k < |s| - n && IsLineBreak(s[n..][k])
      ensures s[n..][k] == '\n'
    {
      assert s[n..][k] == s[n + k];
    }
  }

  lemma SplitLinesAtNewline(s: string, i: nat)
    requires OnlyNewlines(s) && i == FirstBreak(s) && i < |s|
    ensures s[i] == '\n'
    ensures SplitLines(s) == [s[..i]] + SplitLines(s[i + 1..])
  {
    assert IsLineBreak(s[i]);
    assert s[i] != '\r';
  }

  /** Joining a line in front of other lines puts one separator between them. */
  lemma LinesJoin(line: string, lines: seq<string>)
    ensures |lines| == 0 ==> Join([line] + lines, '\n') == line
    ensures |lines| > 0 ==> Join([line] + lines, '\n') == line + "\n" + Join(lines, '\n')
  {
    assert ([line] + lines)[1..] == lines;
  }

  // ---------------------------------------------------------------------------
  // str.lower() and character counting
  // ---------------------------------------------------------------------------

  /** `c.lower()` for ASCII letters; every other character is left alone. */
  function LowerChar(c: char): char {
    if 'A' <= c <= 'Z' then (c as int - 'A' as int + 'a' as int) as char else c
  }

  /** `s.lower()`, character by character. */
  function Lower(s: string): (r: string)
    ensures |r| == |s|
    ensures forall k :: 0 <= k < |s| ==> r[k] == LowerChar(s[k])
  {
    seq(|s|, k requires 0 <= k < |s| => LowerChar(s[k]))
  }

  /** Lowering is idempotent. */
  lemma LowerIdempotent(s: string)
    ensures Lower(Lower(s)) == Lower(s)
  {
  }

  /** The number of occurrences of `c` in `s`. */
  function Count(s: string, c: char): nat
    decreases |s|
  {
    if |s| == 0 then 0 else (if s[0] == c then 1 else 0) + Count(s[1..], c)
  }

  lemma {:induction false} CountAppend(a: string, b: string, c: char)
    ensures Count(a + b, c) == Count(a, c) + Count(b, c)
    decreases |a|
  {
    if |a| == 0 {
      assert a + b == b;
    } else {
      assert (a + b)[0] == a[0];
      assert (a + b)[1..] == a[1..] + b;
      CountAppend(a[1..], b, c);
    }
  }

  lemma {:induction false} CountAbsent(s: string, c: char)
    requires c !in s
    ensures Count(s, c) == 0
    decreases |s|
  {
    if |s| > 0 {
      assert c !in s[1..];
      CountAbsent(s[1..], c);
    }
  }
}

/**
 * File collection (`CodebaseGenerator._collect_files` in clipbase/cli.py)
 * over an abstract directory tree: a top-down walk that prunes ignored
 * directories, keeps the files that pass every per-file test, and sorts
 * the relative paths it gathered.
 */
module Collect {
  import opened Wrappers
  import Strings
  import Config
  import opened Pattern
  import opened Ignore
  import Classify

  /** What reading a file as text gives: its text, or the message of the exception raised. */
  datatype Content = Text(text: string) | ReadError(message: string)

  /**
   * An entry of a directory listing. A file carries its size, its bytes
   * (`None` when opening or reading it fails) and what reading it as text
   * gives; a directory carries its own listing, in listing order.
   */
  datatype Entry =
    | File(name: string, size: nat, bytes: Option<seq<Classify.byte>>, content: Content)
    | Dir(name: string, entries: seq<Entry>)

  /** A name a listing can hold: one non-empty path segment without a newline. */
  predicate ValidName(n: string) {
    |n| > 0 && '/' !in n && '\n' !in n
  }

  /** Every name, at every level, is a valid segment. */
  predicate ValidNames(entries: seq<Entry>)
    decreases entries
  {
    forall k :: 0 <= k < |entries| ==>
      ValidName(entries[k].name) && (entries[k].Dir? ==> ValidNames(entries[k].entries))
  }

  /** Valid names, and no two entries of one directory share a name. */
  predicate WellFormed(entries: seq<Entry>)
    decreases entries
  {
    (forall k, l :: 0 <= k < l < |entries| ==> entries[k].name != entries[l].name)
    && forall k :: 0 <= k < |entries| ==>
      ValidName(entries[k].name) && (entries[k].Dir? ==> WellFormed(entries[k].entries))
  }

  // ---------------------------------------------------------------------------
  // The per-file tests
  // ---------------------------------------------------------------------------

  /**
   * The allow-list test: a file passes when the list is empty or holds its
   * extension. The list is empty, so no file is ever rejected here.
   */
  function Allowed(name: string): (r: bool)
    ensures r
  {
    |Config.AllowedExtensions| == 0 || Classify.SplitExt(name).1 in Config.AllowedExtensions
  }

  /**
   * The tests a file at `path` must pass to be collected: not ignored,
   * allowed, not binary by extension nor by content, and no larger than
   * `maxSize` (a file of exactly `maxSize` bytes is kept).
   */
  predicate Passes(f: Entry, path: string, rules: seq<Rule>, maxSize: int)
    requires f.File? && '\n' !in path
  {
    !IsIgnored(path, rules)
    && Allowed(f.name)
    && !Classify.IsBinaryByExtension(f.name)
    && !Classify.IsBinaryByContent(f.bytes)
    && f.size <= maxSize
  }

  // ---------------------------------------------------------------------------
  // The walk
  // ---------------------------------------------------------------------------
  // The walk is written over its two decisions: `keep`, whether a file at a
  // path is collected, and `prune`, whether a directory at a path is skipped
  // with everything below it. `pre` is the relative path of the listing
  // followed by `/`, or "" at the top, so `os.path.join(rel_root, name)` is
  // `pre + name`.

  /** The loop over `files` at one level: the paths of the files kept, in listing order. */
  function Files(entries: seq<Entry>, i: nat, pre: string, keep: (Entry, string) -> bool): seq<string>
    requires i <= |entries|
    decreases |entries| - i
  {
    if i == |entries| then []
    else
      var e := entries[i];
      (if e.File? && keep(e, pre + e.name) then [pre + e.name] else []) + Files(entries, i + 1, pre, keep)
  }

  /** The loop over `dirs` at one level, after the pruned directories are filtered out. */
  function Subdirs(entries: seq<Entry>, i: nat, pre: string, keep: (Entry, string) -> bool, prune: string -> bool): seq<string>
    requires i <= |entries|
    decreases entries, 0, |entries| - i
  {
    if i == |entries| then []
    else
      var e := entries[i];
      (if e.Dir? && !prune(pre + e.name) then Walk(e.entries, pre + e.name + "/", keep, prune) else [])
      + Subdirs(entries, i + 1, pre, keep, prune)
  }

  /** `os.walk(..., topdown=True)` from one listing: its files, then its kept subdirectories. */
  function Walk(entries: seq<Entry>, pre: string, keep: (Entry, string) -> bool, prune: string -> bool): seq<string>
    decreases entries, 1
  {
    Files(entries, 0, pre, keep) + Subdirs(entries, 0, pre, keep, prune)
  }

  /** The file decision of `_collect_files`. */
  function KeepFile(rules: seq<Rule>, maxSize: int): (Entry, string) -> bool {
    (f: Entry, path: string) => f.File? && '\n' !in path && Passes(f, path, rules, maxSize)
  }

  /** The directory decision of `_collect_files`: the directory's relative path is ignored. */
  function PruneDir(rules: seq<Rule>): string -> bool {
    (path: string) => '\n' !in path && IsIgnored(path, rules)
  }

  /**
   * `_collect_files`: walk the project from its top listing and sort the
   * gathered paths.
   */
  function Collect(root: seq<Entry>, rules: seq<Rule>, maxSize: int): (r: seq<string>)
    ensures Strings.StrictlySorted(r)
  {
    Strings.SortedSet(set p | p in Walk(root, "", KeepFile(rules, maxSize), PruneDir(rules)))
  }

  // ---------------------------------------------------------------------------
  // The reference: which files are collected
  // ---------------------------------------------------------------------------

  /** `f` is a file of the tree `entries` at relative path `path`, with `pre` in front of the top names. */
  predicate Located(entries: seq<Entry>, pre: string, path: string, f: Entry)
    decreases entries
  {
    exists k :: 0 <= k < |entries| &&
      ((entries[k].File? && f == entries[k] && path == pre + entries[k].name)
       || (entries[k].Dir? && Located(entries[k].entries, pre + entries[k].name + "/", path, f)))
  }

  /** No directory on the way down to `path`, from position `from` on, is pruned. */
  predicate AncestorsKept(path: string, from: nat, prune: string -> bool) {
    forall i :: from <= i < |path| && path[i] == '/' ==> !prune(path[..i])
  }

  /** A file of the tree is gathered when it is kept and no directory above it is pruned. */
  ghost predicate Gathered(entries: seq<Entry>, pre: string, path: string, keep: (Entry, string) -> bool, prune: string -> bool) {
    AncestorsKept(path, |pre|, prune) && exists f: Entry :: Located(entries, pre, path, f) && keep(f, path)
  }

  lemma {:induction false} FilesMembers(entries: seq<Entry>, i: nat, pre: string, keep: (Entry, string) -> bool, path: string)
    requires i <= |entries|
    ensures path in Files(entries, i, pre, keep) <==>
      exists k :: i <= k < |entries| && entries[k].File? && path == pre + entries[k].name && keep(entries[k], path)
    decreases |entries| - i
  {
    if i < |entries| {
      var e := entries[i];
      var here := if e.File? && keep(e, pre + e.name) then [pre + e.name] else [];
      assert Files(entries, i, pre, keep) == here + Files(entries, i + 1, pre, keep);
      FilesMembers(entries, i + 1, pre, keep, path);
    }
  }

  lemma {:induction false} SubdirsMembers(entries: seq<Entry>, i: nat, pre: string, keep: (Entry, string) -> bool, prune: string -> bool, path: string)
    requires i <= |entries|
    ensures path in Subdirs(entries, i, pre, keep, prune) <==>
      exists k :: i <= k < |entries| && entries[k].Dir? && !prune(pre + entries[k].name)
        && path in Walk(entries[k].entries, pre + entries[k].name + "/", keep, prune)
    decreases |entries| - i
  {
    if i < |entries| {
      var e := entries[i];
      var here := if e.Dir? && !prune(pre + e.name) then Walk(e.entries, pre + e.name + "/", keep, prune) else [];
      assert Subdirs(entries, i, pre, keep, prune) == here + Subdirs(entries, i + 1, pre, keep, prune);
      SubdirsMembers(entries, i + 1, pre, keep, prune, path);
      if path in here {
        assert i <= i < |entries| && entries[i].Dir? && !prune(pre + entries[i].name)
          && path in Walk(entries[i].entries, pre + entries[i].name + "/", keep, prune);
      }
      if exists k :: (i <= k < |entries| && entries[k].Dir? && !prune(pre + entries[k].name)
        && path in Walk(entries[k].entries, pre + entries[k].name + "/", keep, prune))
      {
        var k :| i <= k < |entries| && entries[k].Dir? && !prune(pre + entries[k].name)
          && path in Walk(entries[k].entries, pre + entries[k].name + "/", keep, prune);
        if k == i {
          assert path in here;
        }
      }
    }
  }

  /** A located path extends `pre` by at least one character. */
  lemma {:induction false} LocatedExtends(entries: seq<Entry>, pre: string, path: string, f: Entry)
    requires ValidNames(entries) && Located(entries, pre, path, f)
    ensures |pre| < |path| && path[..|pre|] == pre
    decreases entries
  {
    var k :| 0 <= k < |entries| &&
      ((entries[k].File? && f == entries[k] && path == pre + entries[k].name)
       || (entries[k].Dir? && Located(entries[k].entries, pre + entries[k].name + "/", path, f)));
    var name := entries[k].name;
    if entries[k].Dir? {
      var sub := pre + name + "/";
      LocatedExtends(entries[k].entries, sub, path, f);
      assert path[..|pre|] == sub[..|pre|];
    }
  }

  /** A located path is a file, and newline-free when `pre` and the names are. */
  lemma {:induction false} LocatedFile(entries: seq<Entry>, pre: string, path: string, f: Entry)
    requires ValidNames(entries) && '\n' !in pre && Located(entries, pre, path, f)
    ensures f.File? && '\n' !in path
    decreases entries
  {
    var k :| 0 <= k < |entries| &&
      ((entries[k].File? && f == entries[k] && path == pre + entries[k].name)
       || (entries[k].Dir? && Located(entries[k].entries, pre + entries[k].name + "/", path, f)));
    if entries[k].Dir? {
      LocatedFile(entries[k].entries, pre + entries[k].name + "/", path, f);
    }
  }

  /** The ancestors below `pre` are those below `pre + name + "/"` and the directory `pre + name`. */
  lemma AncestorsThroughDir(path: string, pre: string, name: string, prune: string -> bool)
    requires ValidName(name)
    requires |pre + name + "/"| <= |path| && path[..|pre + name + "/"|] == pre + name + "/"
    ensures AncestorsKept(path, |pre|, prune) <==>
      !prune(pre + name) && AncestorsKept(path, |pre + name + "/"|, prune)
  {
    var n := |pre| + |name|;
    assert path[n] == (pre + name + "/")[n];
    assert path[..n] == pre + name;
    forall i | |pre| <= i < n
      ensures path[i] != '/'
    {
      assert path[i] == (pre + name + "/")[i] == name[i - |pre|];
    }
  }

  /** A file directly in the listing has no ancestor below `pre`. */
  lemma AncestorsOfDirectFile(pre: string, name: string, prune: string -> bool)
    requires ValidName(name)
    ensures AncestorsKept(pre + name, |pre|, prune)
  {
    var path := pre + name;
    assert forall i :: |pre| <= i < |path| ==> path[i] == name[i - |pre|];
  }

  /**
   * The walk gathers exactly the kept files under no pruned directory.
   * Pruning is transitive: a file below a pruned directory is never
   * gathered, whatever `keep` says about it.
   */
  lemma {:induction false} WalkIsReference(entries: seq<Entry>, pre: string, keep: (Entry, string) -> bool, prune: string -> bool, path: string)
    requires ValidNames(entries)
    ensures path in Walk(entries, pre, keep, prune) <==> Gathered(entries, pre, path, keep, prune)
    decreases entries
  {
    FilesMembers(entries, 0, pre, keep, path);
    SubdirsMembers(entries, 0, pre, keep, prune, path);
    if path in Walk(entries, pre, keep, prune) {
      if path in Files(entries, 0, pre, keep) {
        var k :| 0 <= k < |entries| && entries[k].File? && path == pre + entries[k].name && keep(entries[k], path);
        assert Located(entries, pre, path, entries[k]);
        AncestorsOfDirectFile(pre, entries[k].name, prune);
      } else {
        var k :| 0 <= k < |entries| && entries[k].Dir? && !prune(pre + entries[k].name)
          && path in Walk(entries[k].entries, pre + entries[k].name + "/", keep, prune);
        var name, sub := entries[k].name, pre + entries[k].name + "/";
        WalkIsReference(entries[k].entries, sub, keep, prune, path);
        var f: Entry :| Located(entries[k].entries, sub, path, f) && keep(f, path);
        assert Located(entries, pre, path, f);
        LocatedExtends(entries[k].entries, sub, path, f);
        AncestorsThroughDir(path, pre, name, prune);
      }
    }
    if Gathered(entries, pre, path, keep, prune) {
      var f: Entry :| Located(entries, pre, path, f) && keep(f, path);
      var k :| 0 <= k < |entries| &&
        ((entries[k].File? && f == entries[k] && path == pre + entries[k].name)
         || (entries[k].Dir? && Located(entries[k].entries, pre + entries[k].name + "/", path, f)));
      if entries[k].Dir? {
        var name, sub := entries[k].name, pre + entries[k].name + "/";
        LocatedExtends(entries[k].entries, sub, path, f);
        AncestorsThroughDir(path, pre, name, prune);
        WalkIsReference(entries[k].entries, sub, keep, prune, path);
      }
    }
  }

  // ---------------------------------------------------------------------------
  // What `_collect_files` collects
  // ---------------------------------------------------------------------------

  /** No directory above `path` (no prefix ending before a `/`) is ignored. */
  predicate NoIgnoredAncestor(path: string, rules: seq<Rule>)
    requires '\n' !in path
  {
    forall i :: 0 <= i < |path| && path[i] == '/' ==> !IsIgnored(path[..i], rules)
  }

  /**
   * A path is collected if and only if it names a file of the project that
   * is not ignored, is allowed, is binary neither by extension nor by
   * content, is no larger than `maxSize`, and lies in no ignored directory.
   */
  lemma CollectedFiles(root: seq<Entry>, rules: seq<Rule>, maxSize: int, path: string)
    requires ValidNames(root)
    ensures path in Collect(root, rules, maxSize) <==>
      '\n' !in path && NoIgnoredAncestor(path, rules)
      && exists f: Entry :: f.File? && Located(root, "", path, f) && Passes(f, path, rules, maxSize)
  {
    var keep, prune := KeepFile(rules, maxSize), PruneDir(rules);
    WalkIsReference(root, "", keep, prune, path);
    if path in Collect(root, rules, maxSize) {
      var f: Entry :| Located(root, "", path, f) && keep(f, path);
      assert f.File? && Located(root, "", path, f) && Passes(f, path, rules, maxSize);
    }
    if '\n' !in path && NoIgnoredAncestor(path, rules)
      && exists f: Entry :: f.File? && Located(root, "", path, f) && Passes(f, path, rules, maxSize)
    {
      var f: Entry :| f.File? && Located(root, "", path, f) && Passes(f, path, rules, maxSize);
      assert keep(f, path);
    }
  }

  /**
   * Pruning is transitive: no file below an ignored directory is collected,
   * even when no rule ignores the file itself.
   */
  lemma IgnoredDirectoryHidesFiles(root: seq<Entry>, rules: seq<Rule>, maxSize: int, path: string, i: nat)
    requires ValidNames(root) && '\n' !in path
    requires i < |path| && path[i] == '/' && IsIgnored(path[..i], rules)
    ensures path !in Collect(root, rules, maxSize)
  {
    CollectedFiles(root, rules, maxSize, path);
  }

  /**
   * Under the lines `dir/` and `!dir/file`, the path `dir/file` is not
   * ignored, yet it is never collected: the walk prunes `dir` first.
   */
  lemma NegatedFileInIgnoredDirIsNotCollected(dir: string, file: string, root: seq<Entry>, maxSize: int)
    requires PlainName(dir) && dir[0] != '!' && PlainName(file)
    requires ValidNames(root)
    ensures !IsIgnored(dir + "/" + file, CompileAll(DirThenKeep(dir, file)))
    ensures dir + "/" + file !in Collect(root, CompileAll(DirThenKeep(dir, file)), maxSize)
  {
    assert PlainName(file + file) && file + file != file;
    LaterNegationWins(dir, file, file + file);
    ChildOfIgnoredDir(dir, file, root, CompileAll(DirThenKeep(dir, file)), maxSize);
  }

  /** A file at the top of the project that passes the filter is collected under its own name. */
  lemma TopLevelFileCollected(root: seq<Entry>, k: nat, rules: seq<Rule>, maxSize: int)
    requires ValidNames(root) && k < |root| && root[k].File?
    requires Passes(root[k], root[k].name, rules, maxSize)
    ensures root[k].name in Collect(root, rules, maxSize)
  {
    var path, f := root[k].name, root[k];
    assert Located(root, "", path, f) by {
      assert path == "" + root[k].name;
    }
    CollectedFiles(root, rules, maxSize, path);
  }

  /** A file directly in an ignored directory is not collected. */
  lemma ChildOfIgnoredDir(dir: string, file: string, root: seq<Entry>, rules: seq<Rule>, maxSize: int)
    requires PlainName(dir) && PlainName(file) && ValidNames(root)
    requires IsIgnored(dir, rules)
    ensures dir + "/" + file !in Collect(root, rules, maxSize)
  {
    var path := dir + "/" + file;
    assert path[|dir|] == '/' && path[..|dir|] == dir;
    IgnoredDirectoryHidesFiles(root, rules, maxSize, path, |dir|);
  }

  // ---------------------------------------------------------------------------
  // Each path once, whatever the listing order
  // ---------------------------------------------------------------------------

  predicate Distinct(s: seq<string>) {
    forall i, j :: 0 <= i < j < |s| ==> s[i] != s[j]
  }

  lemma {:induction false} WellFormedNamesValid(entries: seq<Entry>)
    requires WellFormed(entries)
    ensures ValidNames(entries)
    decreases entries
  {
    forall k | 0 <= k < |entries| && entries[k].Dir?
      ensures ValidNames(entries[k].entries)
    {
      WellFormedNamesValid(entries[k].entries);
    }
  }

  /** `p` continues `pre` with the segment `name`: it ends there or goes on with `/`. */
  predicate SegmentIs(p: string, pre: string, name: string) {
    |pre + name| <= |p| && p[..|pre + name|] == pre + name && (|p| == |pre + name| || p[|pre + name|] == '/')
  }

  /** How many characters from `from` on come before the next `/` or the end. */
  function SegmentLength(p: string, from: nat): nat
    decreases |p| - from
  {
    if from >= |p| || p[from] == '/' then 0 else 1 + SegmentLength(p, from + 1)
  }

  lemma {:induction false} SegmentLengthIs(p: string, pre: string, name: string)
    requires '/' !in name && SegmentIs(p, pre, name)
    ensures SegmentLength(p, |pre|) == |name|
    decreases |name|
  {
    if |name| > 0 {
      var pre', name' := pre + [name[0]], name[1..];
      assert pre' + name' == pre + name;
      assert p[|pre|] == (pre + name)[|pre|] == name[0];
      SegmentLengthIs(p, pre', name');
    }
  }

  /** The segment after `pre` determines the name. */
  lemma SegmentUnique(p: string, pre: string, a: string, b: string)
    requires '/' !in a && '/' !in b && SegmentIs(p, pre, a) && SegmentIs(p, pre, b)
    ensures a == b
  {
    SegmentLengthIs(p, pre, a);
    SegmentLengthIs(p, pre, b);
    assert a == p[..|pre + a|][|pre|..];
    assert b == p[..|pre + b|][|pre|..];
  }

  /** Every path the walk of a subdirectory gathers lies in that subdirectory. */
  lemma WalkSegment(entries: seq<Entry>, pre: string, name: string, keep: (Entry, string) -> bool, prune: string -> bool, p: string)
    requires ValidNames(entries) && p in Walk(entries, pre + name + "/", keep, prune)
    ensures SegmentIs(p, pre, name) && |p| > |pre + name|
  {
    var sub := pre + name + "/";
    WalkIsReference(entries, sub, keep, prune, p);
    var f: Entry :| Located(entries, sub, p, f) && keep(f, p);
    LocatedExtends(entries, sub, p, f);
    assert p[..|pre + name|] == sub[..|pre + name|];
    assert p[|pre + name|] == sub[|pre + name|];
  }

  lemma SubdirsSegment(entries: seq<Entry>, i: nat, pre: string, keep: (Entry, string) -> bool, prune: string -> bool, p: string)
    requires i <= |entries| && ValidNames(entries) && p in Subdirs(entries, i, pre, keep, prune)
    ensures exists k :: i <= k < |entries| && entries[k].Dir? && SegmentIs(p, pre, entries[k].name) && |p| > |pre + entries[k].name|
  {
    SubdirsMembers(entries, i, pre, keep, prune, p);
    var k :| i <= k < |entries| && entries[k].Dir? && !prune(pre + entries[k].name)
      && p in Walk(entries[k].entries, pre + entries[k].name + "/", keep, prune);
    WalkSegment(entries[k].entries, pre, entries[k].name, keep, prune, p);
  }

  lemma DistinctAppend(a: seq<string>, b: seq<string>)
    requires Distinct(a) && Distinct(b)
    requires forall x :: x in a ==> x !in b
    ensures Distinct(a + b)
  {
    forall i, j | 0 <= i < j < |a + b|
      ensures (a + b)[i] != (a + b)[j]
    {
      if j < |a| {
        assert (a + b)[i] == a[i] && (a + b)[j] == a[j];
      } else if i >= |a| {
        assert (a + b)[i] == b[i - |a|] && (a + b)[j] == b[j - |a|];
      } else {
        assert (a + b)[i] == a[i] && (a + b)[j] == b[j - |a|];
        assert a[i] in a;
      }
    }
  }

  lemma {:induction false} FilesDistinct(entries: seq<Entry>, i: nat, pre: string, keep: (Entry, string) -> bool)
    requires i <= |entries| && WellFormed(entries)
    ensures Distinct(Files(entries, i, pre, keep))
    decreases |entries| - i
  {
    if i < |entries| {
      var e := entries[i];
      var here := if e.File? && keep(e, pre + e.name) then [pre + e.name] else [];
      var rest := Files(entries, i + 1, pre, keep);
      FilesDistinct(entries, i + 1, pre, keep);
      forall q | q in rest
        ensures q != pre + e.name
      {
        FilesMembers(entries, i + 1, pre, keep, q);
        var k :| i + 1 <= k < |entries| && entries[k].File? && q == pre + entries[k].name && keep(entries[k], q);
        assert entries[k].name != e.name;
        assert q[|pre|..] == entries[k].name && (pre + e.name)[|pre|..] == e.name;
      }
      DistinctAppend(here, rest);
    }
  }

  lemma {:induction false} WalkDistinct(entries: seq<Entry>, pre: string, keep: (Entry, string) -> bool, prune: string -> bool)
    requires WellFormed(entries)
    ensures Distinct(Walk(entries, pre, keep, prune))
    decreases entries, 1
  {
    WellFormedNamesValid(entries);
    FilesDistinct(entries, 0, pre, keep);
    SubdirsDistinct(entries, 0, pre, keep, prune);
    forall p | p in Files(entries, 0, pre, keep)
      ensures p !in Subdirs(entries, 0, pre, keep, prune)
    {
      FilesMembers(entries, 0, pre, keep, p);
      var k :| 0 <= k < |entries| && entries[k].File? && p == pre + entries[k].name && keep(entries[k], p);
      FileNotInSubdirs(entries, pre, entries[k].name, keep, prune, p);
    }
    DistinctAppend(Files(entries, 0, pre, keep), Subdirs(entries, 0, pre, keep, prune));
  }

  /** A path ending with a name directly in the listing is not gathered from a subdirectory. */
  lemma FileNotInSubdirs(entries: seq<Entry>, pre: string, name: string, keep: (Entry, string) -> bool, prune: string -> bool, p: string)
    requires ValidNames(entries) && '/' !in name && p == pre + name
    ensures p !in Subdirs(entries, 0, pre, keep, prune)
  {
    if p in Subdirs(entries, 0, pre, keep, prune) {
      SubdirsSegment(entries, 0, pre, keep, prune, p);
    }
  }

  lemma {:induction false} SubdirsDistinct(entries: seq<Entry>, i: nat, pre: string, keep: (Entry, string) -> bool, prune: string -> bool)
    requires i <= |entries| && WellFormed(entries)
    ensures Distinct(Subdirs(entries, i, pre, keep, prune))
    decreases entries, 0, |entries| - i
  {
    if i < |entries| {
      WellFormedNamesValid(entries);
      var e := entries[i];
      var here := if e.Dir? && !prune(pre + e.name) then Walk(e.entries, pre + e.name + "/", keep, prune) else [];
      var rest := Subdirs(entries, i + 1, pre, keep, prune);
      if e.Dir? {
        WalkDistinct(e.entries, pre + e.name + "/", keep, prune);
      }
      SubdirsDistinct(entries, i + 1, pre, keep, prune);
      forall p | p in here
        ensures p !in rest
      {
        WalkSegment(e.entries, pre, e.name, keep, prune, p);
        SiblingsApart(entries, i, pre, keep, prune, p);
      }
      DistinctAppend(here, rest);
    }
  }

  /** A path in the subdirectory `entries[i]` is not gathered from a later sibling. */
  lemma SiblingsApart(entries: seq<Entry>, i: nat, pre: string, keep: (Entry, string) -> bool, prune: string -> bool, p: string)
    requires i < |entries| && ValidNames(entries) && SegmentIs(p, pre, entries[i].name)
    requires forall k :: i < k < |entries| ==> entries[k].name != entries[i].name
    ensures p !in Subdirs(entries, i + 1, pre, keep, prune)
  {
    if p in Subdirs(entries, i + 1, pre, keep, prune) {
      SubdirsSegment(entries, i + 1, pre, keep, prune, p);
      var k :| i + 1 <= k < |entries| && entries[k].Dir? && SegmentIs(p, pre, entries[k].name) && |p| > |pre + entries[k].name|;
      SegmentUnique(p, pre, entries[i].name, entries[k].name);
    }
  }

  lemma {:induction false} DistinctCard(s: seq<string>)
    requires Distinct(s)
    ensures |set x | x in s| == |s|
    decreases |s|
  {
    if |s| > 0 {
      var rest := s[1..];
      assert Distinct(rest);
      DistinctCard(rest);
      assert (set x | x in s) == {s[0]} + (set x | x in rest);
      assert s[0] !in rest;
    }
  }

  /**
   * With unique names per directory the walk meets every path once, so
   * sorting its list gives exactly the collected sequence: same paths,
   * same length, each once, in sorted order.
   */
  lemma CollectSortsWalk(root: seq<Entry>, rules: seq<Rule>, maxSize: int)
    requires WellFormed(root)
    ensures var w := Walk(root, "", KeepFile(rules, maxSize), PruneDir(rules));
      Distinct(w) && |Collect(root, rules, maxSize)| == |w| && forall p :: p in Collect(root, rules, maxSize) <==> p in w
  {
    var w := Walk(root, "", KeepFile(rules, maxSize), PruneDir(rules));
    WalkDistinct(root, "", KeepFile(rules, maxSize), PruneDir(rules));
    DistinctCard(w);
  }

  /**
   * Every entry of listing `a` has a counterpart in `b`: the same file, or a
   * directory of the same name whose own listing is covered in turn. Order
   * is free at every level.
   */
  predicate Covers(a: seq<Entry>, b: seq<Entry>)
    decreases a
  {
    forall k :: 0 <= k < |a| ==>
      exists l :: 0 <= l < |b| &&
        ((a[k].File? && b[l] == a[k])
         || (a[k].Dir? && b[l].Dir? && b[l].name == a[k].name && Covers(a[k].entries, b[l].entries)))
  }

  /** Two listings that hold the same entries, each directory's listing in any order. */
  predicate SameUpToOrder(a: seq<Entry>, b: seq<Entry>) {
    Covers(a, b) && Covers(b, a)
  }

  /**
   * The order in which the file system lists the entries of any directory,
   * at any depth, does not change what is collected.
   */
  lemma ListingOrderIrrelevant(a: seq<Entry>, b: seq<Entry>, rules: seq<Rule>, maxSize: int)
    requires ValidNames(a) && ValidNames(b)
    requires SameUpToOrder(a, b)
    ensures Collect(a, rules, maxSize) == Collect(b, rules, maxSize)
  {
    forall path
      ensures path in Collect(a, rules, maxSize) <==> path in Collect(b, rules, maxSize)
    {
      CollectedFiles(a, rules, maxSize, path);
      CollectedFiles(b, rules, maxSize, path);
      forall f: Entry
        ensures Located(a, "", path, f) <==> Located(b, "", path, f)
      {
        LocatedAmong(a, b, "", path, f);
        LocatedAmong(b, a, "", path, f);
      }
    }
    Strings.StrictlySortedUnique(Collect(a, rules, maxSize), Collect(b, rules, maxSize));
  }

  /** A file located in a listing is located, at the same path, in any listing covering it. */
  lemma {:induction false} LocatedAmong(a: seq<Entry>, b: seq<Entry>, pre: string, path: string, f: Entry)
    requires Covers(a, b)
    ensures Located(a, pre, path, f) ==> Located(b, pre, path, f)
    decreases a
  {
    if Located(a, pre, path, f) {
      var k :| 0 <= k < |a| &&
        ((a[k].File? && f == a[k] && path == pre + a[k].name)
         || (a[k].Dir? && Located(a[k].entries, pre + a[k].name + "/", path, f)));
      var l :| 0 <= l < |b| &&
        ((a[k].File? && b[l] == a[k])
         || (a[k].Dir? && b[l].Dir? && b[l].name == a[k].name && Covers(a[k].entries, b[l].entries)));
      if a[k].Dir? {
        LocatedAmong(a[k].entries, b[l].entries, pre + a[k].name + "/", path, f);
      }
    }
  }

  // ---------------------------------------------------------------------------
  // Reading a collected file back
  // ---------------------------------------------------------------------------

  /** The position of the entry named `name` in a listing, or -1 when there is none. */
  function IndexOf(entries: seq<Entry>, name: string): (k: int)
    ensures -1 <= k < |entries|
    ensures k >= 0 ==> entries[k].name == name
    ensures k == -1 ==> forall l :: 0 <= l < |entries| ==> entries[l].name != name
    decreases |entries|
  {
    if |entries| == 0 then -1
    else if entries[|entries| - 1].name == name then |entries| - 1
    else IndexOf(entries[..|entries| - 1], name)
  }

  /** Opening a relative path given by its parts: follow them down the listings to a file. */
  function Find(entries: seq<Entry>, parts: seq<string>): (r: Option<Entry>)
    ensures r.Some? ==> r.value.File?
    decreases entries
  {
    if |parts| == 0 then None
    else
      var k := IndexOf(entries, parts[0]);
      if k < 0 then None
      else if |parts| == 1 then (if entries[k].File? then Some(entries[k]) else None)
      else if entries[k].Dir? then Find(entries[k].entries, parts[1..])
      else None
  }

  /** The message of the error raised when a path names no file; its wording is not modelled. */
  const NoSuchFile: string := "No such file or directory"

  /** Opening and reading the file at a relative path of the project. */
  function Read(root: seq<Entry>, path: string): Content {
    match Find(root, Strings.Split(path, '/'))
    case Some(f) => f.content
    case None => ReadError(NoSuchFile)
  }

  /** Following the parts of a located path leads back to the located file. */
  lemma {:induction false} FindLocated(entries: seq<Entry>, pre: string, path: string, f: Entry)
    requires WellFormed(entries) && Located(entries, pre, path, f)
    requires |pre| <= |path|
    ensures Find(entries, Strings.Split(path[|pre|..], '/')) == Some(f)
    decreases entries
  {
    WellFormedNamesValid(entries);
    var k :| 0 <= k < |entries| &&
      ((entries[k].File? && f == entries[k] && path == pre + entries[k].name)
       || (entries[k].Dir? && Located(entries[k].entries, pre + entries[k].name + "/", path, f)));
    var name := entries[k].name;
    assert IndexOf(entries, name) == k;
    if entries[k].Dir? {
      var sub := pre + name + "/";
      LocatedExtends(entries[k].entries, sub, path, f);
      assert path[..|sub|] == sub;
      RestAfterPrefix(path, pre, name);
      Strings.SplitCons(name, '/', path[|sub|..]);
      FindLocated(entries[k].entries, sub, path, f);
    } else {
      assert path[|pre|..] == name;
      Strings.SplitWithoutSep(name, '/');
    }
  }

  /** Below a directory prefix, the rest of the path is the directory's name, a `/` and what follows. */
  lemma RestAfterPrefix(path: string, pre: string, name: string)
    requires |pre + name + "/"| <= |path| && path[..|pre + name + "/"|] == pre + name + "/"
    ensures path[|pre|..] == name + "/" + path[|pre + name + "/"|..]
  {
    var n := |pre + name + "/"|;
    assert path == path[..n] + path[n..];
    assert path[|pre|..] == path[..n][|pre|..] + path[n..];
    assert path[..n][|pre|..] == name + "/";
  }

  /**
   * Reading a collected path gives the content of the file that was
   * collected there.
   */
  lemma ReadCollected(root: seq<Entry>, rules: seq<Rule>, maxSize: int, path: string)
    requires WellFormed(root)
    requires path in Collect(root, rules, maxSize)
    ensures exists f: Entry :: f.File? && Located(root, "", path, f) && Read(root, path) == f.content
  {
    WellFormedNamesValid(root);
    CollectedFiles(root, rules, maxSize, path);
    var f: Entry :| f.File? && Located(root, "", path, f) && Passes(f, path, rules, maxSize);
    FindLocated(root, "", path, f);
    assert path[0..] == path;
  }
}

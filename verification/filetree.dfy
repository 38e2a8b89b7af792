/**
 * The nested directory map built from the collected paths
 * (`build_file_tree` in clipbase/utils.py) and its rendering as an
 * indented tree with box-drawing connectors (`generate_tree_string`).
 */
module FileTree {
  import Strings

  /** A node of the nested dict: its children by name; a leaf has none. */
  datatype Tree = Node(children: map<string, Tree>)

  /** The empty dict `{}`. */
  const Empty: Tree := Node(map[])

  // ---------------------------------------------------------------------------
  // build_file_tree
  // ---------------------------------------------------------------------------

  /**
   * The inner loop of `build_file_tree`: walk down `parts`, creating each
   * missing child as an empty node.
   */
  function Insert(t: Tree, parts: seq<string>): Tree
    decreases |parts|
  {
    if |parts| == 0 then t
    else
      var child := if parts[0] in t.children then t.children[parts[0]] else Empty;
      Node(t.children[parts[0] := Insert(child, parts[1..])])
  }

  /** `build_file_tree(paths)`: insert the `/`-separated parts of every path, in order. */
  function Build(paths: seq<string>): Tree
    decreases |paths|
  {
    if |paths| == 0 then Empty
    else Insert(Build(paths[..|paths| - 1]), Strings.Split(paths[|paths| - 1], '/'))
  }

  /** `c` names a path of nodes going down from the root of `t`. */
  predicate HasChain(t: Tree, c: seq<string>)
    decreases |c|
  {
    |c| == 0 || (c[0] in t.children && HasChain(t.children[c[0]], c[1..]))
  }

  // ---------------------------------------------------------------------------
  // What the built tree holds
  // ---------------------------------------------------------------------------

  /** The empty tree holds only the empty chain. */
  lemma EmptyChains(c: seq<string>)
    ensures HasChain(Empty, c) <==> |c| == 0
  {
  }

  /** Inserting `parts` adds exactly the prefixes of `parts` to the chains of `t`. */
  lemma {:induction false} InsertChains(t: Tree, parts: seq<string>, c: seq<string>)
    ensures HasChain(Insert(t, parts), c) <==> HasChain(t, c) || c <= parts
    decreases |parts|
  {
    if |parts| > 0 && |c| > 0 {
      var child := if parts[0] in t.children then t.children[parts[0]] else Empty;
      InsertChains(child, parts[1..], c[1..]);
      if c[0] == parts[0] {
        EmptyChains(c[1..]);
        assert c <= parts <==> c[1..] <= parts[1..];
      } else {
        assert !(c <= parts);
      }
    }
  }

  /**
   * The chains of `build_file_tree(paths)` are exactly the prefixes of the
   * split input paths: every input path is a root-to-node path, and every
   * node lies on one of them. With no input the tree is empty.
   */
  lemma {:induction false} BuildChains(paths: seq<string>, c: seq<string>)
    ensures HasChain(Build(paths), c) <==> |c| == 0 || exists k :: 0 <= k < |paths| && c <= Strings.Split(paths[k], '/')
    decreases |paths|
  {
    if |paths| == 0 {
      EmptyChains(c);
    } else {
      var init, last := paths[..|paths| - 1], paths[|paths| - 1];
      BuildChains(init, c);
      InsertChains(Build(init), Strings.Split(last, '/'), c);
      if exists k :: 0 <= k < |paths| && c <= Strings.Split(paths[k], '/') {
        var k :| 0 <= k < |paths| && c <= Strings.Split(paths[k], '/');
        if k < |init| {
          assert init[k] == paths[k];
        }
      }
      if exists k :: 0 <= k < |init| && c <= Strings.Split(init[k], '/') {
        var k :| 0 <= k < |init| && c <= Strings.Split(init[k], '/');
        assert paths[k] == init[k];
      }
    }
  }

  /** A tree is determined by its chains. */
  lemma {:induction false} ChainsDetermineTree(t1: Tree, t2: Tree)
    requires forall c :: HasChain(t1, c) <==> HasChain(t2, c)
    ensures t1 == t2
    decreases t1
  {
    forall k | k in t1.children
      ensures k in t2.children
    {
      assert HasChain(t1, [k]);
    }
    forall k | k in t2.children
      ensures k in t1.children
    {
      assert HasChain(t2, [k]);
    }
    forall k | k in t1.children
      ensures t1.children[k] == t2.children[k]
    {
      forall c
        ensures HasChain(t1.children[k], c) <==> HasChain(t2.children[k], c)
      {
        assert ([k] + c)[1..] == c;
        assert HasChain(t1, [k] + c) <==> HasChain(t2, [k] + c);
      }
      ChainsDetermineTree(t1.children[k], t2.children[k]);
    }
  }

  /**
   * The tree depends only on the set of input paths: reordering them or
   * repeating some gives the same tree.
   */
  lemma BuildIgnoresOrderAndRepeats(paths1: seq<string>, paths2: seq<string>)
    requires forall p :: p in paths1 <==> p in paths2
    ensures Build(paths1) == Build(paths2)
  {
    forall c
      ensures HasChain(Build(paths1), c) <==> HasChain(Build(paths2), c)
    {
      BuildChains(paths1, c);
      BuildChains(paths2, c);
      if exists k :: 0 <= k < |paths1| && c <= Strings.Split(paths1[k], '/') {
        var k :| 0 <= k < |paths1| && c <= Strings.Split(paths1[k], '/');
        assert paths1[k] in paths2;
      }
      if exists k :: 0 <= k < |paths2| && c <= Strings.Split(paths2[k], '/') {
        var k :| 0 <= k < |paths2| && c <= Strings.Split(paths2[k], '/');
        assert paths2[k] in paths1;
      }
    }
    ChainsDetermineTree(Build(paths1), Build(paths2));
  }

  // ---------------------------------------------------------------------------
  // generate_tree_string
  // ---------------------------------------------------------------------------

  /** The names of the children of `t`, in `sorted` order. */
  function Names(t: Tree): (r: seq<string>)
    ensures Strings.StrictlySorted(r)
    ensures forall n :: n in r <==> n in t.children
  {
    Strings.SortedSet(t.children.Keys)
  }

  /** Marks the entry: `└── ` for the last sibling, `├── ` for the others. */
  function Connector(last: bool): string {
    if last then "└── " else "├── "
  }

  /** What the children of an entry are indented by: blank under the last sibling, a rule otherwise. */
  function Extension(last: bool): string {
    if last then "    " else "│   "
  }

  /** `generate_tree_string(t, prefix)`. */
  function Render(t: Tree, prefix: string): string
    decreases t, 1
  {
    RenderFrom(t, Names(t), 0, prefix)
  }

  /** The loop of `generate_tree_string` from the `i`-th sorted entry on. */
  function RenderFrom(t: Tree, names: seq<string>, i: nat, prefix: string): string
    requires forall j :: 0 <= j < |names| ==> names[j] in t.children
    decreases t, 0, |names| - i
  {
    if i >= |names| then ""
    else
      var last := i == |names| - 1;
      var child := t.children[names[i]];
      var below := if child.children != map[] then Render(child, prefix + Extension(last)) else "";
      prefix + Connector(last) + names[i] + "\n" + below + RenderFrom(t, names, i + 1, prefix)
  }

  // The same output as a list of lines, each without its terminating '\n':
  // one line per node, a node's line followed by the lines of its subtree.

  function Lines(t: Tree, prefix: string): seq<string>
    decreases t, 1
  {
    LinesFrom(t, Names(t), 0, prefix)
  }

  function LinesFrom(t: Tree, names: seq<string>, i: nat, prefix: string): seq<string>
    requires forall j :: 0 <= j < |names| ==> names[j] in t.children
    decreases t, 0, |names| - i
  {
    if i >= |names| then []
    else
      var last := i == |names| - 1;
      var child := t.children[names[i]];
      var below := if child.children != map[] then Lines(child, prefix + Extension(last)) else [];
      [prefix + Connector(last) + names[i]] + below + LinesFrom(t, names, i + 1, prefix)
  }

  /** The lines, each followed by `'\n'`. */
  function Terminated(lines: seq<string>): string
    decreases |lines|
  {
    if |lines| == 0 then "" else lines[0] + "\n" + Terminated(lines[1..])
  }

  /** The number of nodes below the root of `t`. */
  function Size(t: Tree): nat
    decreases t, 1
  {
    SizeFrom(t, Names(t), 0)
  }

  function SizeFrom(t: Tree, names: seq<string>, i: nat): nat
    requires forall j :: 0 <= j < |names| ==> names[j] in t.children
    decreases t, 0, |names| - i
  {
    if i >= |names| then 0 else 1 + Size(t.children[names[i]]) + SizeFrom(t, names, i + 1)
  }

  /** Every name in `t` is free of `'\n'`. */
  predicate NewlineFree(t: Tree)
    decreases t
  {
    forall n :: n in t.children ==> '\n' !in n && NewlineFree(t.children[n])
  }

  // ---------------------------------------------------------------------------
  // What the rendering holds
  // ---------------------------------------------------------------------------

  lemma {:induction false} TerminatedAppend(a: seq<string>, b: seq<string>)
    ensures Terminated(a + b) == Terminated(a) + Terminated(b)
    decreases |a|
  {
    if |a| > 0 {
      assert (a + b)[0] == a[0] && (a + b)[1..] == a[1..] + b;
      TerminatedAppend(a[1..], b);
      assert a[0] + "\n" + (Terminated(a[1..]) + Terminated(b)) == a[0] + "\n" + Terminated(a[1..]) + Terminated(b);
    } else {
      assert a + b == b;
    }
  }

  /** The rendered string is the lines of `Lines`, each terminated by `'\n'`. */
  lemma {:induction false} RenderIsLines(t: Tree, prefix: string)
    ensures Render(t, prefix) == Terminated(Lines(t, prefix))
    decreases t, 1
  {
    RenderFromIsLinesFrom(t, Names(t), 0, prefix);
  }

  lemma {:induction false} RenderFromIsLinesFrom(t: Tree, names: seq<string>, i: nat, prefix: string)
    requires forall j :: 0 <= j < |names| ==> names[j] in t.children
    ensures RenderFrom(t, names, i, prefix) == Terminated(LinesFrom(t, names, i, prefix))
    decreases t, 0, |names| - i
  {
    if i < |names| {
      var last := i == |names| - 1;
      var child := t.children[names[i]];
      var line := prefix + Connector(last) + names[i];
      var below := if child.children != map[] then Lines(child, prefix + Extension(last)) else [];
      var rest := LinesFrom(t, names, i + 1, prefix);
      if child.children != map[] {
        RenderIsLines(child, prefix + Extension(last));
      }
      RenderFromIsLinesFrom(t, names, i + 1, prefix);
      TerminatedAppend([line] + below, rest);
      TerminatedAppend([line], below);
      assert ([line] + below + rest) == ([line] + below) + rest;
    }
  }

  /** `generate_tree_string` emits one line per node of the tree. */
  lemma {:induction false} LinesCountNodes(t: Tree, prefix: string)
    ensures |Lines(t, prefix)| == Size(t)
    decreases t, 1
  {
    LinesFromCountNodes(t, Names(t), 0, prefix);
  }

  lemma {:induction false} LinesFromCountNodes(t: Tree, names: seq<string>, i: nat, prefix: string)
    requires forall j :: 0 <= j < |names| ==> names[j] in t.children
    ensures |LinesFrom(t, names, i, prefix)| == SizeFrom(t, names, i)
    decreases t, 0, |names| - i
  {
    if i < |names| {
      var last := i == |names| - 1;
      var child := t.children[names[i]];
      if child.children != map[] {
        LinesCountNodes(child, prefix + Extension(last));
      } else {
        assert Names(child) == [];
      }
      LinesFromCountNodes(t, names, i + 1, prefix);
    }
  }

  /** Every emitted line starts with `prefix`. */
  lemma {:induction false} LinesStartWithPrefix(t: Tree, prefix: string)
    ensures forall l :: l in Lines(t, prefix) ==> prefix <= l
    decreases t, 1
  {
    LinesFromStartWithPrefix(t, Names(t), 0, prefix);
  }

  lemma {:induction false} LinesFromStartWithPrefix(t: Tree, names: seq<string>, i: nat, prefix: string)
    requires forall j :: 0 <= j < |names| ==> names[j] in t.children
    ensures forall l :: l in LinesFrom(t, names, i, prefix) ==> prefix <= l
    decreases t, 0, |names| - i
  {
    if i < |names| {
      var last := i == |names| - 1;
      var child := t.children[names[i]];
      if child.children != map[] {
        LinesStartWithPrefix(child, prefix + Extension(last));
        PrefixOfExtended(Lines(child, prefix + Extension(last)), prefix, Extension(last));
      }
      var below := if child.children != map[] then Lines(child, prefix + Extension(last)) else [];
      LinesFromStartWithPrefix(t, names, i + 1, prefix);
      LinesFromUnfold(t, names, i, prefix);
      AllPrefixed([prefix + Connector(last) + names[i]], below, LinesFrom(t, names, i + 1, prefix), prefix);
    }
  }

  /** Three runs of lines that all start with `prefix` make one. */
  lemma AllPrefixed(a: seq<string>, b: seq<string>, c: seq<string>, prefix: string)
    requires forall l :: l in a ==> prefix <= l
    requires forall l :: l in b ==> prefix <= l
    requires forall l :: l in c ==> prefix <= l
    ensures forall l :: l in a + b + c ==> prefix <= l
  {
  }

  lemma PrefixOfExtended(lines: seq<string>, prefix: string, ext: string)
    requires forall l :: l in lines ==> prefix + ext <= l
    ensures forall l :: l in lines ==> prefix <= l
  {
    forall l | l in lines
      ensures prefix <= l
    {
      assert l[..|prefix|] == (prefix + ext)[..|prefix|];
    }
  }

  /** The empty tree renders as the empty string, and only the empty tree does. */
  lemma EmptyTreeRendersNothing(t: Tree, prefix: string)
    ensures Render(t, prefix) == "" <==> t.children == map[]
  {
    var names := Names(t);
    if t.children != map[] {
      var n :| n in t.children;
      assert n in names;
      assert |RenderFrom(t, names, 0, prefix)| > 0;
    } else {
      assert |names| == 0;
    }
  }

  /** Counting terminators: a list of newline-free lines has one `'\n'` per line. */
  lemma {:induction false} TerminatedCount(lines: seq<string>)
    requires forall l :: l in lines ==> '\n' !in l
    ensures Strings.Count(Terminated(lines), '\n') == |lines|
    decreases |lines|
  {
    if |lines| > 0 {
      TerminatedCount(lines[1..]);
      Strings.CountAbsent(lines[0], '\n');
      Strings.CountAppend(lines[0], "\n", '\n');
      Strings.CountAppend(lines[0] + "\n", Terminated(lines[1..]), '\n');
    }
  }

  /** With newline-free names and prefix, no emitted line contains `'\n'`. */
  lemma {:induction false} LinesAreNewlineFree(t: Tree, prefix: string)
    requires NewlineFree(t) && '\n' !in prefix
    ensures forall l :: l in Lines(t, prefix) ==> '\n' !in l
    decreases t, 1
  {
    LinesFromAreNewlineFree(t, Names(t), 0, prefix);
  }

  lemma {:induction false} LinesFromAreNewlineFree(t: Tree, names: seq<string>, i: nat, prefix: string)
    requires forall j :: 0 <= j < |names| ==> names[j] in t.children
    requires NewlineFree(t) && '\n' !in prefix
    ensures forall l :: l in LinesFrom(t, names, i, prefix) ==> '\n' !in l
    decreases t, 0, |names| - i
  {
    if i < |names| {
      var last := i == |names| - 1;
      var child := t.children[names[i]];
      assert '\n' !in Connector(last) && '\n' !in Extension(last);
      if child.children != map[] {
        LinesAreNewlineFree(child, prefix + Extension(last));
      }
      LinesFromAreNewlineFree(t, names, i + 1, prefix);
    }
  }

  /**
   * `generate_tree_string` emits exactly one `'\n'`-terminated line per node
   * (for newline-free names and prefix).
   */
  lemma RenderLineCount(t: Tree, prefix: string)
    requires NewlineFree(t) && '\n' !in prefix
    ensures Strings.Count(Render(t, prefix), '\n') == Size(t)
  {
    RenderIsLines(t, prefix);
    LinesAreNewlineFree(t, prefix);
    TerminatedCount(Lines(t, prefix));
    LinesCountNodes(t, prefix);
  }

  /** A line naming an entry at the level of `prefix` (rather than below it). */
  predicate IsEntryLine(l: string, prefix: string) {
    |l| > |prefix| && (l[|prefix|] == '├' || l[|prefix|] == '└')
  }

  /** The entry lines at the level of `prefix`, in order. */
  function EntryLines(lines: seq<string>, prefix: string): seq<string>
    decreases |lines|
  {
    if |lines| == 0 then []
    else (if IsEntryLine(lines[0], prefix) then [lines[0]] else []) + EntryLines(lines[1..], prefix)
  }

  lemma {:induction false} EntryLinesAppend(a: seq<string>, b: seq<string>, prefix: string)
    ensures EntryLines(a + b, prefix) == EntryLines(a, prefix) + EntryLines(b, prefix)
    decreases |a|
  {
    if |a| > 0 {
      assert (a + b)[0] == a[0] && (a + b)[1..] == a[1..] + b;
      EntryLinesAppend(a[1..], b, prefix);
    } else {
      assert a + b == b;
    }
  }

  /** Lines that all start with `prefix + ext` contain no entry line at the level of `prefix`. */
  lemma {:induction false} NestedLinesAreNotEntries(lines: seq<string>, prefix: string, last: bool)
    requires forall l :: l in lines ==> prefix + Extension(last) <= l
    ensures EntryLines(lines, prefix) == []
    decreases |lines|
  {
    if |lines| > 0 {
      var ext := prefix + Extension(last);
      assert lines[0] in lines;
      assert ext[|prefix|] == Extension(last)[0];
      assert lines[0][|prefix|] == ext[|prefix|];
      assert forall l :: l in lines[1..] ==> l in lines;
      NestedLinesAreNotEntries(lines[1..], prefix, last);
    }
  }

  /** The entry line of the `i`-th of `names`: `└── ` for the last, `├── ` for the others. */
  function EntryLine(names: seq<string>, i: nat, prefix: string): string
    requires i < |names|
  {
    prefix + Connector(i == |names| - 1) + names[i]
  }

  /** The entry lines of `names[i..]`, in order. */
  function EntryList(names: seq<string>, i: nat, prefix: string): (r: seq<string>)
    requires i <= |names|
    ensures |r| == |names| - i
    ensures forall j :: i <= j < |names| ==> r[j - i] == EntryLine(names, j, prefix)
    decreases |names| - i
  {
    if i == |names| then [] else [EntryLine(names, i, prefix)] + EntryList(names, i + 1, prefix)
  }

  /**
   * The entries at the level of `prefix` are the children of `t` in sorted
   * order, and only the last of them uses `└── `.
   */
  lemma EntriesInSortedOrder(t: Tree, prefix: string)
    ensures |EntryLines(Lines(t, prefix), prefix)| == |Names(t)|
    ensures forall i :: 0 <= i < |Names(t)| ==> EntryLines(Lines(t, prefix), prefix)[i] == EntryLine(Names(t), i, prefix)
  {
    EntriesFromInOrder(t, Names(t), 0, prefix);
  }

  lemma {:induction false} EntriesFromInOrder(t: Tree, names: seq<string>, i: nat, prefix: string)
    requires forall j :: 0 <= j < |names| ==> names[j] in t.children
    requires i <= |names|
    ensures EntryLines(LinesFrom(t, names, i, prefix), prefix) == EntryList(names, i, prefix)
    decreases |names| - i
  {
    if i < |names| {
      EntriesFromStep(t, names, i, prefix);
      EntriesFromInOrder(t, names, i + 1, prefix);
    }
  }

  /** One step of `LinesFrom`: its entry lines are the entry of `names[i]` then those of the rest. */
  lemma EntriesFromStep(t: Tree, names: seq<string>, i: nat, prefix: string)
    requires forall j :: 0 <= j < |names| ==> names[j] in t.children
    requires i < |names|
    ensures EntryLines(LinesFrom(t, names, i, prefix), prefix)
      == [EntryLine(names, i, prefix)] + EntryLines(LinesFrom(t, names, i + 1, prefix), prefix)
  {
    var last := i == |names| - 1;
    var child := t.children[names[i]];
    var line := EntryLine(names, i, prefix);
    var below := if child.children != map[] then Lines(child, prefix + Extension(last)) else [];
    var rest := LinesFrom(t, names, i + 1, prefix);
    assert LinesFrom(t, names, i, prefix) == [line] + below + rest;
    SubtreeHasNoEntries(child, prefix, last);
    assert IsEntryLine(line, prefix) by {
      assert line[|prefix|] == Connector(last)[0];
    }
    assert EntryLines([line], prefix) == [line];
    EntryLinesAppend([line] + below, rest, prefix);
    EntryLinesAppend([line], below, prefix);
  }

  /** The lines of a subtree, indented by an extension, hold no entry line of the level above. */
  lemma SubtreeHasNoEntries(child: Tree, prefix: string, last: bool)
    ensures child.children != map[] ==> EntryLines(Lines(child, prefix + Extension(last)), prefix) == []
  {
    if child.children != map[] {
      LinesStartWithPrefix(child, prefix + Extension(last));
      NestedLinesAreNotEntries(Lines(child, prefix + Extension(last)), prefix, last);
    }
  }

  // ---------------------------------------------------------------------------
  // Every line is drawn from its node's chain of ancestors
  // ---------------------------------------------------------------------------

  /** `n` is the child of `t` that sorts after all its siblings. */
  predicate IsLastChild(t: Tree, n: string) {
    n in t.children && forall m :: m in t.children ==> Strings.Below(m, n)
  }

  /**
   * The line of the node reached along chain `c`: one extension per
   * ancestor (blank below a last sibling, a rule otherwise), then the
   * node's own connector and name.
   */
  function ChainLine(t: Tree, c: seq<string>, prefix: string): string
    requires |c| > 0 && HasChain(t, c)
    decreases |c|
  {
    var last := IsLastChild(t, c[0]);
    if |c| == 1 then prefix + Connector(last) + c[0]
    else ChainLine(t.children[c[0]], c[1..], prefix + Extension(last))
  }

  /** The `i`-th sorted name is the last child exactly when it is the last name. */
  lemma LastChildIsLastName(t: Tree, i: int)
    requires 0 <= i < |Names(t)|
    ensures IsLastChild(t, Names(t)[i]) <==> i == |Names(t)| - 1
  {
    var names := Names(t);
    var n := |names| - 1;
    if i == n {
      forall m | m in t.children
        ensures Strings.Below(m, names[i])
      {
        var j :| 0 <= j < |names| && names[j] == m;
        if j == n { Strings.BelowReflexive(m); }
      }
    } else {
      assert names[n] in t.children;
      if IsLastChild(t, names[i]) {
        assert Strings.Below(names[n], names[i]);
        Strings.BelowAntisymmetric(names[i], names[n]);
        assert false;
      }
    }
  }

  /**
   * The rendered lines are exactly the chain lines: every node of `t`
   * appears, indented by the extensions its ancestors' positions decide, and
   * nothing else appears.
   */
  lemma LinesAreChainLines(t: Tree, prefix: string, l: string)
    ensures l in Lines(t, prefix) <==> exists c :: |c| > 0 && HasChain(t, c) && ChainLine(t, c, prefix) == l
  {
    if l in Lines(t, prefix) {
      var c := LinesAreChains(t, prefix, l);
    }
    if exists c :: |c| > 0 && HasChain(t, c) && ChainLine(t, c, prefix) == l {
      var c :| |c| > 0 && HasChain(t, c) && ChainLine(t, c, prefix) == l;
      ChainsAreLines(t, c, prefix);
    }
  }

  /** Every chain's line is among the rendered lines. */
  lemma {:induction false} ChainsAreLines(t: Tree, c: seq<string>, prefix: string)
    requires |c| > 0 && HasChain(t, c)
    ensures ChainLine(t, c, prefix) in Lines(t, prefix)
    decreases |c|
  {
    var names := Names(t);
    var i :| 0 <= i < |names| && names[i] == c[0];
    LastChildIsLastName(t, i);
    var last := i == |names| - 1;
    var child := t.children[c[0]];
    LinesFromUnfold(t, names, i, prefix);
    if |c| > 1 {
      assert c[1] in child.children;
      ChainsAreLines(child, c[1..], prefix + Extension(last));
    }
    LinesFromHolds(t, names, 0, i, prefix, ChainLine(t, c, prefix));
  }

  /** The lines from `names[i]` on lie in the loop from any `j <= i`. */
  lemma LinesFromHolds(t: Tree, names: seq<string>, j: nat, i: nat, prefix: string, l: string)
    requires forall k :: 0 <= k < |names| ==> names[k] in t.children
    requires j <= i < |names| && l in LinesFrom(t, names, i, prefix)
    ensures l in LinesFrom(t, names, j, prefix)
  {
    var f := (k: nat) => if k <= |names| then LinesFrom(t, names, k, prefix) else [];
    LinesFromStepsBack(t, names, prefix, l, f, i);
    StepBack(f, j, i, l);
  }

  /** Read through `f`, each step back from `names[k + 1]` to `names[k]` keeps `l`. */
  lemma LinesFromStepsBack(t: Tree, names: seq<string>, prefix: string, l: string, f: nat -> seq<string>, i: nat)
    requires forall k :: 0 <= k < |names| ==> names[k] in t.children
    requires i < |names|
    requires forall k: nat :: k <= |names| ==> f(k) == LinesFrom(t, names, k, prefix)
    ensures forall k :: 0 <= k < i ==> (l in f(k + 1) ==> l in f(k))
  {
    forall k | 0 <= k < i && l in f(k + 1)
      ensures l in f(k)
    {
      LinesFromTail(t, names, k, prefix, l);
    }
  }

  /** Membership that every step back preserves reaches back to the start. */
  lemma {:induction false} StepBack(f: nat -> seq<string>, j: nat, i: nat, l: string)
    requires j <= i && l in f(i)
    requires forall k :: j <= k < i ==> (l in f(k + 1) ==> l in f(k))
    ensures l in f(j)
    decreases i - j
  {
    if j < i {
      StepBack(f, j + 1, i, l);
    }
  }

  /** One step of `LinesFrom`: the entry line, the subtree's lines, then the later siblings. */
  lemma LinesFromUnfold(t: Tree, names: seq<string>, i: nat, prefix: string)
    requires forall k :: 0 <= k < |names| ==> names[k] in t.children
    requires i < |names|
    ensures var last := i == |names| - 1;
      var child := t.children[names[i]];
      var below := if child.children != map[] then Lines(child, prefix + Extension(last)) else [];
      LinesFrom(t, names, i, prefix) == [prefix + Connector(last) + names[i]] + below + LinesFrom(t, names, i + 1, prefix)
  {
  }

  /** A line drawn from `names[i]` on means `names[i]` exists. */
  lemma LinesFromBelowEnd(t: Tree, names: seq<string>, i: nat, prefix: string, l: string)
    requires forall k :: 0 <= k < |names| ==> names[k] in t.children
    requires l in LinesFrom(t, names, i, prefix)
    ensures i < |names|
  {
  }

  /** The lines of the later siblings are among the lines from an earlier one. */
  lemma LinesFromTail(t: Tree, names: seq<string>, i: nat, prefix: string, l: string)
    requires forall k :: 0 <= k < |names| ==> names[k] in t.children
    requires i < |names| && l in LinesFrom(t, names, i + 1, prefix)
    ensures l in LinesFrom(t, names, i, prefix)
  {
    LinesFromUnfold(t, names, i, prefix);
  }

  /** Every rendered line is some chain's line: `c` is that chain. */
  lemma {:induction false} LinesAreChains(t: Tree, prefix: string, l: string) returns (c: seq<string>)
    requires l in Lines(t, prefix)
    ensures |c| > 0 && HasChain(t, c) && ChainLine(t, c, prefix) == l
    decreases t, 1
  {
    c := LinesFromAreChains(t, 0, prefix, l);
  }

  lemma {:induction false} LinesFromAreChains(t: Tree, j: nat, prefix: string, l: string) returns (c: seq<string>)
    requires l in LinesFrom(t, Names(t), j, prefix)
    ensures |c| > 0 && HasChain(t, c) && ChainLine(t, c, prefix) == l
    decreases t, 0, |Names(t)| - j
  {
    var names := Names(t);
    LinesFromBelowEnd(t, names, j, prefix, l);
    var last := j == |names| - 1;
    var child := t.children[names[j]];
    var below := if child.children != map[] then Lines(child, prefix + Extension(last)) else [];
    LinesFromUnfold(t, names, j, prefix);
    if l == prefix + Connector(last) + names[j] {
      EntryChain(t, j, prefix);
      c := [names[j]];
    } else if l in below {
      var d := LinesAreChains(child, prefix + Extension(last), l);
      SubtreeChain(t, j, d, prefix);
      c := [names[j]] + d;
    } else {
      c := LinesFromAreChains(t, j + 1, prefix, l);
    }
  }

  /** The chain of the `j`-th name alone draws its entry line. */
  lemma EntryChain(t: Tree, j: nat, prefix: string)
    requires j < |Names(t)|
    ensures HasChain(t, [Names(t)[j]])
    ensures ChainLine(t, [Names(t)[j]], prefix) == prefix + Connector(j == |Names(t)| - 1) + Names(t)[j]
  {
    LastChildIsLastName(t, j);
    OneNameChain(t, Names(t)[j], prefix);
  }

  /** A chain below the `j`-th name extends through it. */
  lemma SubtreeChain(t: Tree, j: nat, d: seq<string>, prefix: string)
    requires j < |Names(t)| && |d| > 0 && HasChain(t.children[Names(t)[j]], d)
    ensures HasChain(t, [Names(t)[j]] + d)
    ensures ChainLine(t, [Names(t)[j]] + d, prefix)
      == ChainLine(t.children[Names(t)[j]], d, prefix + Extension(j == |Names(t)| - 1))
  {
    LastChildIsLastName(t, j);
    LongerChain(t, Names(t)[j], d, prefix);
  }

  /** A one-name chain draws the child's entry line. */
  lemma OneNameChain(t: Tree, n: string, prefix: string)
    requires n in t.children
    ensures HasChain(t, [n])
    ensures ChainLine(t, [n], prefix) == prefix + Connector(IsLastChild(t, n)) + n
  {
    assert [n][1..] == [];
  }

  /** A chain below child `n` extends to a chain from `t` that draws the same line under the child's prefix. */
  lemma LongerChain(t: Tree, n: string, d: seq<string>, prefix: string)
    requires n in t.children && |d| > 0 && HasChain(t.children[n], d)
    ensures HasChain(t, [n] + d)
    ensures ChainLine(t, [n] + d, prefix) == ChainLine(t.children[n], d, prefix + Extension(IsLastChild(t, n)))
  {
    assert ([n] + d)[1..] == d;
  }

  // ---------------------------------------------------------------------------
  // Depth-first placement: a folder's subtree follows its own line
  // ---------------------------------------------------------------------------

  /** Line `k` of `s` is `e`, and the lines right after it are exactly `blk`. */
  predicate BlockAt(s: seq<string>, k: int, e: string, blk: seq<string>) {
    0 <= k && k + 1 + |blk| <= |s| && s[k] == e && s[k + 1..k + 1 + |blk|] == blk
  }

  /**
   * Each child's entry line is followed directly by all the lines of its
   * own subtree, drawn with the child's extension: the recursion of
   * `generate_tree_string` is depth-first.
   */
  lemma SubtreeDirectlyBelow(t: Tree, prefix: string, n: string)
    requires n in t.children
    ensures var last := IsLastChild(t, n);
      exists k :: BlockAt(Lines(t, prefix), k, prefix + Connector(last) + n, Lines(t.children[n], prefix + Extension(last)))
  {
    var names := Names(t);
    var i :| 0 <= i < |names| && names[i] == n;
    LastChildIsLastName(t, i);
    var child := t.children[n];
    var q := prefix + Extension(i == |names| - 1);
    if child.children == map[] {
      assert Names(child) == [];
      assert Lines(child, q) == [];
    }
    assert SubtreeLines(t, names, i, prefix) == Lines(child, q);
    BlockInLinesFrom(t, names, 0, i, prefix);
    assert BlockAt(Lines(t, prefix), Offset(t, names, 0, i, prefix), prefix + Connector(IsLastChild(t, n)) + n, Lines(child, q));
  }

  /** The lines drawn below `names[i]`: its subtree's lines, or none for a file. */
  function SubtreeLines(t: Tree, names: seq<string>, i: nat, prefix: string): seq<string>
    requires forall k :: 0 <= k < |names| ==> names[k] in t.children
    requires i < |names|
  {
    var child := t.children[names[i]];
    if child.children != map[] then Lines(child, prefix + Extension(i == |names| - 1)) else []
  }

  /** How many lines the loop draws for `names[j..i]`: each entry line and its subtree lines. */
  function Offset(t: Tree, names: seq<string>, j: nat, i: nat, prefix: string): nat
    requires forall k :: 0 <= k < |names| ==> names[k] in t.children
    requires i <= |names|
    decreases i - j
  {
    if j >= i then 0 else 1 + |SubtreeLines(t, names, j, prefix)| + Offset(t, names, j + 1, i, prefix)
  }

  /** From any `j <= i`, the loop draws `names[i]`'s entry line with its subtree lines right after it. */
  lemma {:induction false} BlockInLinesFrom(t: Tree, names: seq<string>, j: nat, i: nat, prefix: string)
    requires forall k :: 0 <= k < |names| ==> names[k] in t.children
    requires j <= i < |names|
    ensures BlockAt(LinesFrom(t, names, j, prefix), Offset(t, names, j, i, prefix),
      prefix + Connector(i == |names| - 1) + names[i], SubtreeLines(t, names, i, prefix))
    decreases i - j
  {
    if j < i {
      BlockInLinesFrom(t, names, j + 1, i, prefix);
      BlockBack(t, names, j, i, prefix);
    } else {
      BlockFirst(t, names, i, prefix);
    }
  }

  /** One step back of `BlockInLinesFrom`: from `names[m + 1]` on to `names[m]` on. */
  lemma BlockBack(t: Tree, names: seq<string>, m: nat, i: nat, prefix: string)
    requires forall k :: 0 <= k < |names| ==> names[k] in t.children
    requires m < i < |names|
    requires BlockAt(LinesFrom(t, names, m + 1, prefix), Offset(t, names, m + 1, i, prefix),
      prefix + Connector(i == |names| - 1) + names[i], SubtreeLines(t, names, i, prefix))
    ensures BlockAt(LinesFrom(t, names, m, prefix), Offset(t, names, m, i, prefix),
      prefix + Connector(i == |names| - 1) + names[i], SubtreeLines(t, names, i, prefix))
  {
    BlockStep(t, names, m, prefix, Offset(t, names, m + 1, i, prefix), Offset(t, names, m, i, prefix),
      prefix + Connector(i == |names| - 1) + names[i], SubtreeLines(t, names, i, prefix));
  }

  /** The loop from `names[i]` starts with its entry line and its subtree lines. */
  lemma BlockFirst(t: Tree, names: seq<string>, i: nat, prefix: string)
    requires forall k :: 0 <= k < |names| ==> names[k] in t.children
    requires i < |names|
    ensures BlockAt(LinesFrom(t, names, i, prefix), 0, prefix + Connector(i == |names| - 1) + names[i], SubtreeLines(t, names, i, prefix))
  {
    LinesFromSplit(t, names, i, prefix);
    HeadBlock(prefix + Connector(i == |names| - 1) + names[i], SubtreeLines(t, names, i, prefix), LinesFrom(t, names, i + 1, prefix));
  }

  /** A block drawn from `names[m + 1]` on is drawn, further down, from `names[m]` on. */
  lemma BlockStep(t: Tree, names: seq<string>, m: nat, prefix: string, k: nat, off: nat, e: string, blk: seq<string>)
    requires forall k :: 0 <= k < |names| ==> names[k] in t.children
    requires m < |names| && BlockAt(LinesFrom(t, names, m + 1, prefix), k, e, blk)
    requires off == 1 + |SubtreeLines(t, names, m, prefix)| + k
    ensures BlockAt(LinesFrom(t, names, m, prefix), off, e, blk)
  {
    LinesFromSplit(t, names, m, prefix);
    var head := [prefix + Connector(m == |names| - 1) + names[m]] + SubtreeLines(t, names, m, prefix);
    ShiftBlock(head, LinesFrom(t, names, m + 1, prefix), k, off, e, blk);
  }

  /** `LinesFromUnfold`, with the subtree's lines named. */
  lemma LinesFromSplit(t: Tree, names: seq<string>, i: nat, prefix: string)
    requires forall k :: 0 <= k < |names| ==> names[k] in t.children
    requires i < |names|
    ensures LinesFrom(t, names, i, prefix)
      == [prefix + Connector(i == |names| - 1) + names[i]] + SubtreeLines(t, names, i, prefix) + LinesFrom(t, names, i + 1, prefix)
  {
    LinesFromUnfold(t, names, i, prefix);
  }

  /** A line followed by its block starts a block at position 0. */
  lemma HeadBlock(e: string, blk: seq<string>, rest: seq<string>)
    ensures BlockAt([e] + blk + rest, 0, e, blk)
  {
    assert ([e] + blk + rest)[1..1 + |blk|] == blk;
  }

  /** A block keeps its shape when lines are put in front of it. */
  lemma ShiftBlock(pre: seq<string>, rest: seq<string>, k: nat, off: nat, e: string, blk: seq<string>)
    requires BlockAt(rest, k, e, blk) && off == |pre| + k
    ensures BlockAt(pre + rest, off, e, blk)
  {
    var s := pre + rest;
    assert s[|pre| + k] == rest[k];
    assert s[|pre| + k + 1..|pre| + k + 1 + |blk|] == rest[k + 1..k + 1 + |blk|];
  }
}

/**
 * The end of a run (`CodebaseGenerator._generate_output` and `run` in
 * clipbase/cli.py): the prompt document, with the directory tree followed
 * by every collected file under its own header, and where it is delivered.
 */
module Emit {
  import opened Wrappers
  import Strings
  import FileTree
  import opened Pattern
  import opened RuleList
  import opened Collect

  // ---------------------------------------------------------------------------
  // The document
  // ---------------------------------------------------------------------------

  const TreeTitle: string := "Directory Structure:\n"

  /** The tree part: the project folder, then the rendered tree of the collected paths. */
  function TreeSection(projectName: string, files: seq<string>): string {
    "└── " + projectName + "/\n" + FileTree.Render(FileTree.Build(files), "") + "\n"
  }

  /** The header put before a file's text. */
  function Header(path: string): string {
    "\n---\nFile: /" + path + "\n---\n"
  }

  /** A file's text, or the error message when reading it failed. */
  function Body(c: Content): string {
    match c
    case Text(t) => t
    case ReadError(message) => "Error reading file: " + message
  }

  /** A header and a body per file, in the order of `files`. */
  function FileParts(root: seq<Entry>, files: seq<string>): (r: seq<string>)
    ensures |r| == 2 * |files|
    decreases |files|
  {
    if |files| == 0 then []
    else [Header(files[0]), Body(Read(root, files[0]))] + FileParts(root, files[1..])
  }

  /** The parts of the i-th file sit at positions 2i and 2i + 1. */
  lemma {:induction false} FilePartsAt(root: seq<Entry>, files: seq<string>, i: nat)
    requires i < |files|
    ensures FileParts(root, files)[2 * i] == Header(files[i])
    ensures FileParts(root, files)[2 * i + 1] == Body(Read(root, files[i]))
    decreases i
  {
    if i > 0 {
      FilePartsAt(root, files[1..], i - 1);
      assert files[1..][i - 1] == files[i];
    }
  }

  /** `output_content`: the title, the tree part, then the parts of every file. */
  function Parts(projectName: string, root: seq<Entry>, files: seq<string>): seq<string> {
    [TreeTitle, TreeSection(projectName, files)] + FileParts(root, files)
  }

  /** `"\n".join(output_content)`. */
  function Document(projectName: string, root: seq<Entry>, files: seq<string>): string {
    Strings.Join(Parts(projectName, root, files), '\n')
  }

  /** `t` occurs in `s` starting at position `k`. */
  predicate OccursAt(t: string, s: string, k: int) {
    0 <= k && k + |t| <= |s| && s[k..k + |t|] == t
  }

  /** `t` occurs in `s`. */
  predicate Occurs(t: string, s: string) {
    exists k :: 0 <= k <= |s| && OccursAt(t, s, k)
  }

  /** The join of at least two parts starts with the first two and a separator between them. */
  lemma JoinStartsWith(parts: seq<string>, sep: char)
    requires |parts| >= 2
    ensures parts[0] + [sep] + parts[1] <= Strings.Join(parts, sep)
  {
    var rest := parts[1..];
    assert rest[0] == parts[1];
    if |rest| > 1 {
      assert Strings.Join(rest, sep) == rest[0] + [sep] + Strings.Join(rest[1..], sep);
    }
  }

  /** The document opens with the title and the tree part, on lines of their own. */
  lemma DocumentStartsWithTree(projectName: string, root: seq<Entry>, files: seq<string>)
    ensures TreeTitle + "\n" + TreeSection(projectName, files) <= Document(projectName, root, files)
  {
    JoinStartsWith(Parts(projectName, root, files), '\n');
  }

  /** With no file collected, the document is the title and the tree part alone. */
  lemma EmptyDocument(projectName: string, root: seq<Entry>)
    ensures Document(projectName, root, []) == TreeTitle + "\n" + "└── " + projectName + "/\n" + "\n"
  {
    var p := Parts(projectName, root, []);
    assert p == [TreeTitle, TreeSection(projectName, [])];
    assert FileTree.Build([]).children == map[];
    FileTree.EmptyTreeRendersNothing(FileTree.Build([]), "");
    assert TreeSection(projectName, []) == "└── " + projectName + "/\n" + "\n";
    assert p[1..] == [p[1]];
    assert Strings.Join(p, '\n') == p[0] + "\n" + p[1];
  }

  /**
   * Two neighbouring parts after the first appear in the join with one
   * separator between them.
   */
  lemma JoinShowsNeighbours(parts: seq<string>, n: nat, sep: char)
    requires 0 < n && n + 1 < |parts|
    ensures Occurs(parts[n] + [sep] + parts[n + 1], Strings.Join(parts, sep))
  {
    var t := parts[n] + [sep] + parts[n + 1];
    var a, b := parts[..n], parts[n..];
    assert parts == a + b;
    Strings.JoinAppend(a, b, sep);
    assert b[0] == parts[n] && b[1] == parts[n + 1];
    JoinStartsWith(b, sep);
    var front := Strings.Join(a, sep) + [sep];
    var s := Strings.Join(parts, sep);
    assert s == front + Strings.Join(b, sep);
    assert OccursAt(t, s, |front|);
  }

  /**
   * Every file in `files` appears in the document as its header, a line
   * break, and its body: the file's text, or the read error in its place.
   */
  lemma DocumentShowsFile(projectName: string, root: seq<Entry>, files: seq<string>, i: nat)
    requires i < |files|
    ensures Occurs(Header(files[i]) + "\n" + Body(Read(root, files[i])), Document(projectName, root, files))
  {
    var p := Parts(projectName, root, files);
    FilePartsAt(root, files, i);
    PartsOfFile(projectName, root, files, i);
    JoinShowsNeighbours(p, 2 + 2 * i, '\n');
  }

  /** The parts of the i-th file follow the title and the tree part. */
  lemma PartsOfFile(projectName: string, root: seq<Entry>, files: seq<string>, i: nat)
    requires i < |files|
    ensures 3 + 2 * i < |Parts(projectName, root, files)|
    ensures Parts(projectName, root, files)[2 + 2 * i] == FileParts(root, files)[2 * i]
    ensures Parts(projectName, root, files)[3 + 2 * i] == FileParts(root, files)[2 * i + 1]
  {
  }

  // ---------------------------------------------------------------------------
  // Delivery and the run
  // ---------------------------------------------------------------------------

  /** Where the document goes: copied to the clipboard, or written to a file (name, text). */
  datatype Delivery = Delivery(copied: Option<string>, written: Option<(string, string)>)

  /**
   * With `--clipboard` the document is copied; only when that is off or the
   * copy fails is it written to the output file. It always goes to exactly
   * one of the two.
   */
  function Deliver(opts: Options, document: string, clipboardWorks: bool): (d: Delivery)
    ensures d.written.Some? <==> !opts.clipboard || !clipboardWorks
    ensures d.copied.Some? <==> !d.written.Some?
    ensures d.copied.Some? ==> d.copied.value == document
    ensures d.written.Some? ==> d.written.value == (opts.output, document)
  {
    if opts.clipboard && clipboardWorks then Delivery(Some(document), None)
    else Delivery(None, Some((opts.output, document)))
  }

  /**
   * The project as a run sees it: the folder's base name, its listing
   * (`None` when the path is not a directory) and the text of its
   * `.gitignore` (`None` when there is none).
   */
  datatype Project = Project(name: string, root: Option<seq<Entry>>, gitignore: Option<string>)

  /** What a run ends with. */
  datatype Outcome =
    | DirectoryNotFound
    | Done(rules: seq<Rule>, files: seq<string>, document: string, delivery: Delivery)

  /**
   * `CodebaseGenerator.run`: when the source is not a directory, stop before
   * building rules, collecting or producing anything; otherwise build the
   * rules, collect the files, lay out the document and deliver it.
   */
  function Run(opts: Options, project: Project, clipboardWorks: bool): (o: Outcome)
    ensures o.DirectoryNotFound? <==> project.root.None?
    ensures o.Done? ==> Strings.StrictlySorted(o.files)
    ensures o.Done? ==> TreeTitle <= o.document
    ensures o.Done? ==> (o.delivery.copied == Some(o.document)) != (o.delivery.written == Some((opts.output, o.document)))
  {
    match project.root
    case None => DirectoryNotFound
    case Some(root) =>
      var rules := BuildRules(opts, project.gitignore);
      var files := Collect.Collect(root, rules, opts.maxSize);
      var document := Document(project.name, root, files);
      DocumentStartsWithTree(project.name, root, files);
      Done(rules, files, document, Deliver(opts, document, clipboardWorks))
  }

  /**
   * A run over a directory collects exactly the files that pass every test
   * under the run's rules and lie in no ignored directory, and shows each of
   * them in the document with the text read from that file.
   */
  lemma RunCollects(opts: Options, project: Project, clipboardWorks: bool, path: string)
    requires project.root.Some? && WellFormed(project.root.value)
    ensures var o := Run(opts, project, clipboardWorks);
      var rules := BuildRules(opts, project.gitignore);
      path in o.files <==>
        '\n' !in path && NoIgnoredAncestor(path, rules)
        && exists f: Entry :: f.File? && Located(project.root.value, "", path, f) && Passes(f, path, rules, opts.maxSize)
    ensures var o := Run(opts, project, clipboardWorks);
      path in o.files ==>
        exists f: Entry :: f.File? && Located(project.root.value, "", path, f)
          && Occurs(Header(path) + "\n" + Body(f.content), o.document)
  {
    var root := project.root.value;
    var o := Run(opts, project, clipboardWorks);
    var rules := BuildRules(opts, project.gitignore);
    WellFormedNamesValid(root);
    CollectedFiles(root, rules, opts.maxSize, path);
    if path in o.files {
      ReadCollected(root, rules, opts.maxSize, path);
      var f: Entry :| f.File? && Located(root, "", path, f) && Read(root, path) == f.content;
      var i :| 0 <= i < |o.files| && o.files[i] == path;
      DocumentShowsFile(project.name, root, o.files, i);
    }
  }

  /**
   * A listed file that cannot be read still appears in the document, with
   * the error message in place of its text.
   */
  lemma UnreadableFileStillShown(projectName: string, root: seq<Entry>, files: seq<string>, path: string, f: Entry, message: string)
    requires WellFormed(root) && path in files
    requires f.File? && Located(root, "", path, f) && f.content == ReadError(message)
    ensures Occurs(Header(path) + "\n" + "Error reading file: " + message, Document(projectName, root, files))
  {
    FindLocated(root, "", path, f);
    assert path[0..] == path;
    var i :| 0 <= i < |files| && files[i] == path;
    DocumentShowsFile(projectName, root, files, i);
    ErrorShown(Header(path), Body(Read(root, path)), message, Document(projectName, root, files));
  }

  // A sequence-associativity step with no meaning of its own, kept apart so
  // that the caller proves it without the document in view.
  lemma ErrorShown(header: string, body: string, message: string, s: string)
    requires body == "Error reading file: " + message
    requires Occurs(header + "\n" + body, s)
    ensures Occurs(header + "\n" + "Error reading file: " + message, s)
  {
    assert header + "\n" + body == header + "\n" + "Error reading file: " + message;
  }
}

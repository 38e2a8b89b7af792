# ClipBase in Dafny

ClipBase turns a project folder into one text document for a language-model
prompt. The document holds a drawing of the directory tree followed by the
text of every file. Files are excluded when they match `.gitignore`-style
rules, look binary, or are too large. The finished document goes to the
clipboard or to an output file.

This project models the core of that pipeline and proves properties about it:

- `Config` (config.py): the built-in ignore patterns, the allowed-extension
  list (empty) and the binary extensions.
- `Pattern` (`gitignore_to_regex`): compiles one pattern line into a rule.
  A rule has an ignore matcher or a negation matcher. Each matcher is a
  regular expression written as a prefix (`^`, `(.*/)?` or none), a token
  body (literal, `*`, `**`, `?`) and the `(/.*)?$` tail. `re.search` is
  modelled by `Matches`.
- `Ignore` (`is_ignored`): normalises the path to start with `/`, then folds
  the rules in order. An ignore match sets the verdict; a later negation
  match clears it.
- `Classify`: `os.path.splitext` on POSIX paths, `is_binary_by_extension`,
  and the zero-byte test of `is_binary_by_content` on the first 1024 bytes.
- `FileTree`: `build_file_tree` as a tree of maps, and `generate_tree_string`
  with its connectors, indentation and sorted order.
- `RuleList` (`_build_ignore_rules`): the built-in patterns, then the
  `.gitignore` lines, then the `--exclude` values. Empty lines and `#` lines
  are dropped, and what remains is compiled in order.
- `Collect` (`_collect_files`): a top-down walk over an abstract directory
  listing. Ignored directories are pruned, and each file passes the ignore,
  allowed-extension, binary and size tests in order. The result is sorted.
- `Emit` (`_generate_output`, `_write_to_file`, `run`): the document, the
  clipboard-or-file delivery, and the early exit when the source is not a
  directory.
- `IgnoreExamples`: concrete instances of the ignore rules.
- `Strings` and `Wrappers`: shared string and option helpers.

Modelling choices:

- The file system is a value. `Entry` is a file with its size, its bytes
  (`None` when it cannot be opened) and its text content, or a directory
  with its listing.
- `os.walk` is modelled by `Collect.Walk`. It yields a folder's files before
  its sub-folders, and it leaves out a sub-folder whose path is ignored.
- `pre` is the relative path of the folder being listed followed by a `/`,
  or empty at the top, where `rel_root` is `''` and
  `os.path.join(rel_root, name)` is just `name` (clipbase/cli.py:46-54).
- Paths use `/` as `os.sep` and never contain a line break. `IsIgnored`
  requires the latter, because `$` in a Python regular expression may also
  match before a final newline.
- The clipboard's success, the `.gitignore` text, the folder's base name and
  the directory test are inputs of `Run`.

Behaviours of the code that the model keeps as written and proves:

- A pattern with a `/` inside it, such as `storage/logs/`, is not anchored
  at the root (clipbase/utils.py:32-37). Its regular expression gets no `^`,
  and `re.search` finds it at any depth (`Pattern.InnerSlashIsNotRooted`).
- No built-in pattern matches the name `.gitignore`, so a project's own
  `.gitignore` file is collected like any other text file
  (`IgnoreExamples.GitignoreNotIgnoredByDefault`,
  `IgnoreExamples.GitignoreCollectedByDefault`).
- A pattern `/name`, where `name` starts with a literal character other
  than `/`, compiles to `^name`. Every path is normalised to begin with `/`,
  so such a pattern never matches (`Pattern.LeadingSlashLiteralNeverMatches`).
  A leading `/` followed by nothing or by a wildcard does match: `/`, `/*`
  and `/**` match every path (`Pattern.RootWildcardsMatchEverything`), and
  a pattern such as `/?x` matches `/x`, because `?` matches the `/` itself
  (`Pattern.AnyMatchesTheRootSlash`).
- Because pruned directories are never entered, a `!dir/file` line cannot
  bring back a file under an ignored `dir/`. This holds even though
  `is_ignored` alone says the file is not ignored
  (`Collect.NegatedFileInIgnoredDirIsNotCollected`).

## Model

| member | source | states |
|---|---|---|
| Config.DefaultsArePlainPatterns | clipbase/config.py:2-30 | there are 41 built-in patterns; each is non-empty and starts with neither `#`, `!` nor `/`, so each survives the filter and is an unanchored ignore pattern |
| Config.BinaryExtensionsAreLowerDotted | clipbase/config.py:38-44 | every binary extension starts with `.` and is already lower case, so it can be compared with a lower-cased `splitext` result |
| Strings.Below | clipbase/cli.py:73 | Python's `<=` on strings, comparing code points from the left; `Strings.StrictlySorted` orders the collected paths by it |
| Strings.Join | clipbase/cli.py:96 | `sep.join(parts)`; `Strings.JoinSplit` and `Strings.JoinAppend` state its content |
| Strings.SortedSet | clipbase/cli.py:73 | sorting the collected paths gives a strictly increasing sequence with exactly the same members and no repeats |
| Strings.StrictlySortedUnique | clipbase/cli.py:73 | two strictly sorted sequences with the same members are equal, so the sorted list of paths is determined by the set of paths |
| Strings.Split | clipbase/utils.py:79 | `path.split('/')` gives at least one part, and no part contains the separator |
| Strings.JoinSplit | clipbase/utils.py:79 | re-joining the parts of a split with the separator gives back the string |
| Strings.SplitLines | clipbase/cli.py:35 | `str.splitlines()` gives lines without line-break characters, and gives none exactly for the empty text |
| Strings.JoinSplitLines | clipbase/cli.py:35 | for text whose only break character is `\n`, joining the lines with `\n` gives back the text less at most one final newline |
| Strings.JoinAppend | clipbase/cli.py:96 | `"\n".join` of two non-empty runs of parts is the two joins with one separator between them |
| Strings.Lower | clipbase/utils.py:7 | lower-casing keeps the length and maps each character on its own |
| Strings.LowerIdempotent | clipbase/utils.py:7 | lower-casing twice is lower-casing once |
| Pattern.Compile | clipbase/utils.py:27-28 | a line with a leading `!` gives a negation-only rule, any other line an ignore-only rule; a `!!` line gives a rule with neither matcher |
| Pattern.CompileMatcher | clipbase/utils.py:30-53 | the prefix is `^` exactly for a leading `/`, and `(.*/)?` exactly when the line has no `/`; the body spells the line without its leading `/`, and without its trailing `/` when it has one |
| Pattern.Tokenize | clipbase/utils.py:45 | the tokens spell the pattern back; `*` and `?` are never literal tokens, and a `*` token is never followed by another star token, because stars pair up into `**` from the left; the first token is a star exactly when the pattern starts with `*` |
| Pattern.TokenizeUnique | clipbase/utils.py:45 | tokenizing the spelling of a canonical token list gives back that list, so the translation is one-to-one |
| Pattern.DropTrailingSlash | clipbase/utils.py:40-42 | a trailing `/` is removed and nothing else is |
| Pattern.SelfMatch | clipbase/utils.py:45 | every token body matches its own spelling, so escaping keeps literal characters literal |
| Pattern.StarStaysInSegment | clipbase/utils.py:45 | `*` (`[^/]*`) matches exactly the strings without `/` |
| Pattern.StarConsumes | clipbase/utils.py:45 | `*` can absorb any slash-free prefix before the rest of the body matches |
| Pattern.DoubleStarSpansSegments | clipbase/utils.py:45 | `**` (`.*`) matches every string, slashes included |
| Pattern.AnyIsOneCharacter | clipbase/utils.py:45 | `?` (`.`) matches exactly the strings of length one |
| Pattern.AnyDirsPrefixIsInert | clipbase/utils.py:36-37 | under `re.search` the `(.*/)?` prefix changes nothing: a matcher with it matches exactly the paths the bare body matches |
| Pattern.UnanchoredIgnoresWhatPrecedes | clipbase/utils.py:36-37 | an unanchored matcher that matches a path also matches it with anything put in front |
| Pattern.MatchCoversDescendants | clipbase/utils.py:50-53 | the `(/.*)?$` tail makes a matcher that matches a path also match everything below it |
| Pattern.LiteralBodyMatchesOnlyItself | clipbase/utils.py:45 | a body of literal tokens matches exactly its own spelling |
| Pattern.LongLiteralMissesShortPath | clipbase/utils.py:45 | a literal body longer than the path never matches it |
| Pattern.Anchor | clipbase/utils.py:31-37 | the prefix is `^` exactly for a leading `/`, which is then removed; it is `(.*/)?` exactly when the line has no `/`; otherwise the line is kept whole |
| Pattern.FullMatch | clipbase/utils.py:45 | the translated body matching a whole string; its wildcards are characterised by `Pattern.StarStaysInSegment`, `Pattern.DoubleStarSpansSegments` and `Pattern.AnyIsOneCharacter` |
| Pattern.Matches | clipbase/utils.py:68-70 | `regex.search(path)`: the prefix, then the body, then the end of the path or a `/`; `Pattern.AnyDirsPrefixIsInert` and `Pattern.MatchCoversDescendants` state its consequences |
| Pattern.RootWildcardsMatchEverything | clipbase/utils.py:32-34 | `/`, `/*` and `/**` are anchored with `^`, yet each of them matches every path that starts with `/` |
| Pattern.PlainTextIsLiteral | clipbase/utils.py:45 | text without `*` or `?` tokenizes to literals only |
| Pattern.LeadingSlashLiteralNeverMatches | clipbase/utils.py:32-34 | a pattern `/name` compiles to `^name`, which never matches a path starting with `/`, and every path is normalised to start with one |
| Pattern.DirectoryMarkerHasNoEffect | clipbase/utils.py:49-53 | both branches append the same tail, so `p/` and `p` match the same paths |
| Pattern.OwnTextMatchesAnywhere | clipbase/utils.py:35-53 | a pattern not starting with `/` matches its own text wherever it occurs as whole path segments |
| Pattern.StarPatternCompiles | clipbase/utils.py:35-45 | `*ext` compiles to an unanchored matcher: a `*` token, then the tokens of `ext` |
| Pattern.StarSuffixMatches | clipbase/utils.py:45 | `*.ext` matches any path whose last segment ends in `.ext` |
| Pattern.EnvMatchesInsideSegment | clipbase/utils.py:32-37 | `env/` matches `/src/myenv/a.py`: the line holds a `/`, so its regex `env(/.*)?$` gets no prefix, and the unanchored search finds it inside `myenv` |
| Pattern.AnyMatchesTheRootSlash | clipbase/utils.py:32-45 | `/?name` is anchored with `^`, yet it matches `/name`: the `?` (`.`) matches the leading `/` of the path |
| Pattern.ForeignCharNeverMatches | clipbase/utils.py:35-53 | a pattern without a leading `/` holding a literal character that the path lacks never matches the path |
| Pattern.LastCharNeverMatches | clipbase/utils.py:35-53 | a pattern without a leading `/` ending in a literal character never matches a one-segment path `/name` whose name ends in another character |
| Pattern.LitOccurs | clipbase/utils.py:45 | every literal token of a body occurs in any string the body matches |
| Pattern.LastLitEnds | clipbase/utils.py:45 | a body ending in a literal token matches only strings ending in that character |
| Pattern.InnerSlashIsNotRooted | clipbase/utils.py:32-37 | a pattern with an inner `/` and no leading one gets no `^`, and matches its own text as whole segments at any depth, such as `storage/logs/` in `/app/storage/logs/x.log` |
| Ignore.Normalize | clipbase/utils.py:62-64 | the checked path starts with `/`: a path that already does is left unchanged, and any other gets a `/` put in front |
| Ignore.Step | clipbase/utils.py:67-71 | a rule that fires decides on its own, ignoring unless its negation fires; a rule that does not fire keeps the verdict so far |
| Ignore.Verdict | clipbase/utils.py:66-73 | the fold's result is the last-match reading: the last rule that fires decides, and it ignores exactly when its negation does not also fire |
| Ignore.LastMatchUnfold | clipbase/utils.py:66-73 | the last-match reading of a rule list is decided by its last rule when that rule fires, and by the rules before it otherwise |
| Ignore.LastFiresDecides | clipbase/utils.py:67-71 | when the last rule fires, the path is ignored exactly when that rule's negation does not fire |
| Ignore.SilentLastDefers | clipbase/utils.py:67-71 | a last rule that does not fire leaves the verdict of the rules before it |
| Ignore.IsIgnored | clipbase/utils.py:57-73 | a path is ignored exactly when the last-match reading holds for its normalised form; a path no rule fires on is not ignored |
| Ignore.CompileAll | clipbase/cli.py:41 | one rule per pattern, in the same order |
| Ignore.SilentRuleChangesNothing | clipbase/utils.py:66-73 | appending a rule that does not fire on the path leaves the verdict unchanged |
| Ignore.LeadingSlashIsIrrelevant | clipbase/utils.py:62-64 | `/path` and `path` get the same verdict |
| Ignore.WithoutNegationAnyMatchIgnores | clipbase/utils.py:66-73 | with no negation rules, a path is ignored exactly when some rule matches it |
| Ignore.NegationReusesMatcher | clipbase/utils.py:27-28 | `!p` gives no ignore matcher and the same matcher as `p` as its negation |
| Ignore.DoubleNegationIsInert | clipbase/utils.py:27-28 | a `!!p` line compiles to a rule with no matcher, which never changes a verdict |
| Ignore.VerdictOfPair | clipbase/utils.py:66-73 | two rules are applied in list order |
| Ignore.NegatedCompiles | clipbase/utils.py:27-28 | `!rest` compiles to a negation with the very matcher `rest` would ignore with |
| Ignore.PairCompiles | clipbase/cli.py:41 | the lines `dir/` and `!dir/file` compile to a directory rule and a keep rule, in the order the lines are given |
| Ignore.LaterNegationWins | clipbase/utils.py:66-73 | under `dir/` then `!dir/file`, `dir` and its other children are ignored but `dir/file` is not; in the opposite order `dir/file` is ignored |
| Ignore.ChildVerdicts | clipbase/utils.py:66-73 | after a directory rule, a negation rule decides its children; before it, the negation is overridden |
| Ignore.DefaultMatchIgnores | clipbase/utils.py:66-73 | no built-in rule is a negation, so a path that any built-in matcher matches is ignored by the built-in rules |
| Ignore.DefaultTextIgnoredAnywhere | clipbase/config.py:2-30 | a path holding a built-in pattern's name as whole segments, at any depth, is ignored by default |
| Ignore.DefaultSuffixIgnored | clipbase/config.py:2-30 | a path whose last segment ends in the suffix of a built-in `*.ext` pattern is ignored by default |
| IgnoreExamples.BuildThenKeepExample | clipbase/utils.py:66-73 | under `build/` then `!build/keep.txt`, `build` and `build/x.txt` are ignored and `build/keep.txt` is not; the reverse order ignores it |
| IgnoreExamples.LogFileIgnoredByDefault | clipbase/config.py:2-30 | `/a/secret.log` is ignored by the built-in rules |
| IgnoreExamples.NodeModulesIgnoredByDefault | clipbase/config.py:2-30 | `/x/node_modules/y.js` is ignored by the built-in rules |
| IgnoreExamples.GitignoreNotIgnoredByDefault | clipbase/config.py:2-30 | none of the built-in patterns ignores `.gitignore` |
| IgnoreExamples.GitignoreCollectedByDefault | clipbase/cli.py:43-73 | under the built-in rules a top-level `.gitignore` file is collected when its content is not binary and it is within the size limit |
| IgnoreExamples.EnvSuffixIgnoredByDefault | clipbase/config.py:2-30 | `/src/myenv/a.py` is ignored by the built-in rules, although `myenv` is not `env` |
| Classify.RFind | clipbase/utils.py:7 | the last index of the character, or -1 exactly when it does not occur |
| Classify.SplitExt | clipbase/utils.py:7 | `splitext` splits the path into root and extension; a non-empty extension is one `.` and then neither `.` nor `/`; it is non-empty exactly when the last segment has a `.` after some non-dot character |
| Classify.SplitExtCondition | clipbase/utils.py:7 | the test `splitext` performs on the last `/` and the last `.` is exactly the extension condition |
| Classify.IsBinaryByExtension | clipbase/utils.py:5-7 | a path classified binary by extension has an extension |
| Classify.ExtensionTestIgnoresCase | clipbase/utils.py:7 | a path and its lower-cased form get the same classification |
| Classify.SplitExtOfLower | clipbase/utils.py:7 | lower-casing a path only lower-cases its extension |
| Classify.LeadingDotsAreNoExtension | clipbase/utils.py:7 | a name of leading dots and a dot-free rest, such as `.png`, has no extension |
| Classify.SplitsOffExtension | clipbase/utils.py:7 | a name with a non-dot character before `.ext` splits off exactly `.ext` |
| Classify.PngExamples | clipbase/utils.py:5-7 | `A.PNG` and `a.png` are binary by extension; the dotfile `.png` is not |
| Classify.Chunk | clipbase/utils.py:13 | the chunk is the first 1024 bytes of the data, or all of it when the data is no longer |
| Classify.IsBinaryByContent | clipbase/utils.py:9-16 | an unreadable file counts as binary; a readable one is binary exactly when a zero byte occurs among its first 1024 bytes |
| Classify.ContentTestReadsOneChunk | clipbase/utils.py:13-14 | bytes after the first 1024 never change the content test |
| FileTree.Insert | clipbase/utils.py:80-84 | the inner loop walking down one path's parts and creating missing levels; `FileTree.InsertChains` states what it adds |
| FileTree.Build | clipbase/utils.py:75-85 | `build_file_tree`, inserting every path's parts in order; `FileTree.BuildChains` characterises the result |
| FileTree.Render | clipbase/utils.py:87-99 | `generate_tree_string`; `FileTree.RenderIsLines`, `FileTree.EntriesInSortedOrder`, `FileTree.LinesAreChainLines` and `FileTree.SubtreeDirectlyBelow` state its lines and their order |
| FileTree.RenderFrom | clipbase/utils.py:91-98 | the loop over the sorted children from the i-th on; `FileTree.EntriesFromInOrder` states its entry lines |
| FileTree.BuildChains | clipbase/utils.py:75-85 | the built tree has a chain of nodes exactly for every prefix of the `/`-split parts of some path |
| FileTree.InsertChains | clipbase/utils.py:80-84 | inserting parts adds exactly the prefixes of those parts as chains |
| FileTree.ChainsDetermineTree | clipbase/utils.py:75-85 | two trees with the same chains are equal |
| FileTree.BuildIgnoresOrderAndRepeats | clipbase/utils.py:75-85 | lists with the same paths, in any order and with any repeats, build the same tree |
| FileTree.Names | clipbase/utils.py:89 | the children's names are listed in strictly increasing order, each once |
| FileTree.RenderIsLines | clipbase/utils.py:87-99 | the rendering is the lines of `FileTree.Lines`, each followed by one newline; `FileTree.SubtreeDirectlyBelow` states that they come depth-first |
| FileTree.LinesCountNodes | clipbase/utils.py:87-99 | there is one line for each node below the root |
| FileTree.RenderLineCount | clipbase/utils.py:87-99 | with newline-free names the rendering has exactly one `\n` per node |
| FileTree.LinesStartWithPrefix | clipbase/utils.py:94-98 | every line of a subtree starts with the indentation passed down to it |
| FileTree.EmptyTreeRendersNothing | clipbase/utils.py:87-99 | the rendering is empty exactly when the tree has no children |
| FileTree.EntriesInSortedOrder | clipbase/utils.py:89-94 | the lines at a level are the children in sorted order, each drawn with `└── ` when it is last and `├── ` otherwise |
| FileTree.EntriesFromInOrder | clipbase/utils.py:91-98 | from the i-th child on, the entry lines are the entries of those children in order; nested lines are not entries |
| FileTree.LinesAreChainLines | clipbase/utils.py:87-99 | the lines are exactly the chain lines: for every path of names down the tree, one line made of the extension of each ancestor (`    ` after a last sibling, `│   ` otherwise), then the connector of the last name (`└── ` when it is the last sibling, `├── ` otherwise), then that name |
| FileTree.SubtreeDirectlyBelow | clipbase/utils.py:91-98 | depth-first order: the line of each child is followed directly by all the lines of that child's subtree, drawn under the child's extension (`    ` when it is the last sibling, `│   ` otherwise) |
| FileTree.BlockInLinesFrom | clipbase/utils.py:91-98 | in the loop from the j-th sorted child on, the i-th child's line comes right after the lines of children j to i-1 and their subtrees, and that child's subtree lines come right after it |
| FileTree.ChainsAreLines | clipbase/utils.py:91-98 | every path of names down the tree is drawn as its chain line |
| FileTree.LastChildIsLastName | clipbase/utils.py:89-93 | a child sorts after all its siblings exactly when it is the last of the sorted names, so `is_last` picks the greatest name |
| FileTree.SubtreeHasNoEntries | clipbase/utils.py:96-98 | a subtree's lines carry the extra indentation, so none of them is an entry of the outer level |
| RuleList.DefaultSection | clipbase/cli.py:28-29 | the built-in patterns, or none under `--no-defaults`; `RuleList.DefaultsComeFirst` states where they go |
| RuleList.GitignoreSection | clipbase/cli.py:31-35 | the `splitlines()` of `.gitignore`, or none under `--no-gitignore` or without the file; `RuleList.GitignoreLineBecomesRule` states what becomes of them |
| RuleList.RawPatterns | clipbase/cli.py:27-37 | the built-in section, then the `.gitignore` section, then the `--exclude` values; `RuleList.BuildRules` states the order |
| RuleList.Dropped | clipbase/cli.py:40 | a line is dropped when it is empty or starts with `#`, without stripping; `RuleList.Kept` states the filter |
| RuleList.Kept | clipbase/cli.py:40 | the filter keeps exactly the non-empty lines not starting with `#` and never adds one |
| RuleList.KeptAppend | clipbase/cli.py:40 | filtering keeps the order of the lines |
| RuleList.KeptIdentity | clipbase/cli.py:40 | lines none of which is dropped pass unchanged |
| RuleList.BuildRules | clipbase/cli.py:26-41 | the rules are the compiled kept built-in patterns, then the kept `.gitignore` lines, then the kept `--exclude` values |
| RuleList.DefaultsSurviveFiltering | clipbase/cli.py:40 | every built-in pattern survives the filter, in order |
| RuleList.DefaultsComeFirst | clipbase/cli.py:28-29 | without `--no-defaults` the rule list starts with the built-in rules |
| RuleList.DefaultsArePlainIgnoreRules | clipbase/config.py:2-30 | every built-in rule has an ignore matcher and no negation |
| RuleList.NoSourcesNoRules | clipbase/cli.py:26-41 | with no built-ins, no `.gitignore` and no usable `--exclude` value there are no rules and nothing is ignored |
| RuleList.GitignoreLineBecomesRule | clipbase/cli.py:31-41 | every `.gitignore` line that is neither empty nor a comment becomes a rule of the `.gitignore` part, without stripping |
| Collect.Passes | clipbase/cli.py:57-69 | the per-file tests in order: not ignored, allowed, binary neither by extension nor by content, no larger than the limit; `Collect.CollectedFiles` uses it |
| Collect.KeepFile | clipbase/cli.py:53-71 | the file decision of the walk, `Collect.Passes` at the file's relative path |
| Collect.PruneDir | clipbase/cli.py:51 | the folder decision of the walk: a folder whose relative path is ignored is skipped |
| Collect.Files | clipbase/cli.py:53-71 | the loop over one folder's files; `Collect.FilesMembers` states what it yields |
| Collect.Subdirs | clipbase/cli.py:50-51 | the descent into one folder's unpruned sub-folders; `Collect.SubdirsMembers` states what it yields |
| Collect.Walk | clipbase/cli.py:45-71 | `os.walk` from one listing, its files first and then its kept sub-folders; `Collect.WalkIsReference` characterises it |
| Collect.Read | clipbase/cli.py:88-94 | opening a relative path of the project; `Collect.ReadCollected` states what a collected path gives |
| Collect.Allowed | clipbase/cli.py:60 | the allowed-extension list is empty, so every name is allowed |
| Collect.Collect | clipbase/cli.py:43-73 | the collected paths are strictly sorted |
| Collect.FilesMembers | clipbase/cli.py:53-71 | a folder's files contribute exactly the paths of the files there that pass |
| Collect.SubdirsMembers | clipbase/cli.py:51 | the walk descends exactly into the sub-folders whose path is not ignored |
| Collect.WalkIsReference | clipbase/cli.py:45-71 | the walk yields exactly the paths of files whose ancestor folders are not ignored and which pass every test |
| Collect.CollectedFiles | clipbase/cli.py:43-73 | a path is collected exactly when it names a file in the tree, no folder above it is ignored, and the file passes the ignore, extension, binary and size tests |
| Collect.IgnoredDirectoryHidesFiles | clipbase/cli.py:51 | nothing below an ignored folder is collected |
| Collect.TopLevelFileCollected | clipbase/cli.py:53-71 | a file at the top of the project that passes the per-file tests is collected under its name |
| Collect.ChildOfIgnoredDir | clipbase/cli.py:51 | a direct child of an ignored folder is not collected |
| Collect.NegatedFileInIgnoredDirIsNotCollected | clipbase/cli.py:51-58 | under `dir/` and `!dir/file`, `dir/file` is not ignored, yet it is never collected |
| Collect.LocatedExtends | clipbase/cli.py:54 | a file's path extends the path of the folder it was found under |
| Collect.LocatedFile | clipbase/cli.py:53-54 | only files are located, and their paths are newline-free |
| Collect.WellFormedNamesValid | clipbase/cli.py:45 | a well-formed listing has valid names throughout |
| Collect.WalkDistinct | clipbase/cli.py:45-71 | with distinct names per folder, the walk never yields a path twice |
| Collect.CollectSortsWalk | clipbase/cli.py:71-73 | the collected list is the walk's output, sorted: the same paths and as many of them |
| Collect.ListingOrderIrrelevant | clipbase/cli.py:45-73 | the collected list does not depend on the order in which the file system lists the entries of any folder, at any depth |
| Collect.IndexOf | clipbase/cli.py:88 | the position of the entry with a name, or -1 exactly when no entry has it |
| Collect.Find | clipbase/cli.py:88-92 | following path parts through the listing can only arrive at a file |
| Collect.FindLocated | clipbase/cli.py:88-92 | opening a file's path leads to that file |
| Collect.ReadCollected | clipbase/cli.py:87-94 | reading a collected path gives the content of the file collected there |
| Emit.TreeSection | clipbase/cli.py:80-84 | the project line, then the rendered tree of the collected paths, then a blank line |
| Emit.Header | clipbase/cli.py:89 | the header put before each file's text, naming it as `/` and its relative path |
| Emit.Body | clipbase/cli.py:90-94 | a file's text, or `Error reading file: ` and the error when it cannot be read |
| Emit.FileParts | clipbase/cli.py:87-94 | two parts per collected file; `Emit.FilePartsAt` states which part sits where |
| Emit.Parts | clipbase/cli.py:77-94 | `output_content`: the title, the tree part, then the parts of every file |
| Emit.Document | clipbase/cli.py:96 | `"\n".join(output_content)`; `Emit.DocumentStartsWithTree` and `Emit.DocumentShowsFile` state what it shows |
| Emit.FilePartsAt | clipbase/cli.py:87-94 | the parts of the i-th collected file sit at positions 2i and 2i + 1: its header, then its text or its read error |
| Emit.DocumentStartsWithTree | clipbase/cli.py:79-84 | the document starts with the title and the tree part, each followed by a line break |
| Emit.EmptyDocument | clipbase/cli.py:79-96 | with no file collected the document is the title and the project line with its blank line |
| Emit.JoinShowsNeighbours | clipbase/cli.py:96 | neighbouring parts appear in the joined document with a `\n` between them |
| Emit.DocumentShowsFile | clipbase/cli.py:87-96 | every listed file appears in the document as its header, a line break and its text or read error |
| Emit.UnreadableFileStillShown | clipbase/cli.py:93-94 | a listed file that cannot be read still appears, with the error message in place of its text |
| Emit.Deliver | clipbase/cli.py:98-115 | the document is copied when `--clipboard` is given and the copy works, and written to the output file otherwise; exactly one of the two happens, with the document itself |
| Emit.Run | clipbase/cli.py:17-24 | the run stops with nothing produced exactly when the source is not a directory; otherwise the files are sorted, the document starts with the title, and exactly one destination gets it |
| Emit.RunCollects | clipbase/cli.py:22-24 | a run collects exactly the files that pass under its rules and lie in no ignored folder, and shows each one in the document with its own content |

## Left out

- Command-line parsing (`main`, argparse) is left out. `Options` holds the parsed values, and `os.path.abspath` and `basename` are replaced by the project name given as input.
- Printing is left out: progress lines, skip notices and error messages have no effect on the result.
- `get_gitignore_patterns` (clipbase/utils.py:18-23) is left out because the generator never calls it.
- Reading `.gitignore` is left out. Its text (`None` when absent) is an input instead of a file found in the tree. The `errors='ignore'` decoding is not modelled. A `.gitignore` that exists but cannot be opened (no permission, or a directory of that name) makes `open` at clipbase/cli.py:33-35 raise; nothing catches it, so the run stops with an exception, an outcome the model does not have.
- File contents are given as text and bytes. Decoding, and `read()` itself, are not modelled; a file that cannot be opened carries its error message.
- Collect.Read: a path that leads to no file yields the constant `NoSuchFile` message. The message text of Python's exceptions is not modelled.
- Collect.Collect: its own contract only states sortedness; `Collect.CollectedFiles` and `Collect.CollectSortsWalk` state the rest.
- `os.path.getsize` is the `size` field. A size that cannot be read, symbolic links and files changing during the walk are not modelled.
- Strings.Lower: only ASCII letters are lower-cased. Python's full Unicode case mapping is not modelled.
- Ignore.IsIgnored: requires a newline-free path. Python's `$` may match before a final newline, and that case is not modelled.
- Emit.Deliver: a failing write (`IOError` in `_write_to_file`) only prints a message, so it is not modelled. A written delivery is the attempt to write.
- Emit.Run: its own contract does not characterise the files; `Emit.RunCollects` does.
- Clipboard access (`pyperclip`) is the `clipboardWorks` input. Concurrency and other processes touching the files are not modelled.
- setup.py and packaging are left out because they hold no behaviour.

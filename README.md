# tree.py, modelled in Dafny

`tree.py` reads paths from standard input, one per line (or grep's
`path:match` / `Binary file X matches` lines), builds a prefix tree of their
components, and prints that tree with box-drawing prefixes, optionally
coloured from `LS_COLORS` and `TREE_COLORS`, followed by a summary of how
many directories and files it printed.

This project models:

- the trie: `Node` and the walk of `Tree.add_line`;
- the recursive printer `Tree.print_tree`;
- `split_path`, together with the POSIX `os.path.split`, `os.path.join` and
  `os.path.splitext` it relies on;
- `color`;
- the entry parser of `setup_color`;
- the summary line of `main`.

It then proves what these promise.

Modules, in dependency order:

- `Common` (`common.dfy`): `Option`, and `Outcome`. An `Outcome` is either
  `Continue` or `Exit(status, message)`, which stands for a call to `exit()`.
- `Text` (`text.dfy`): Python's string semantics, namely:
  - `str.strip()`, with the full `str.isspace()` set;
  - `str.split(sep)`;
  - `str(n)` for a natural number;
  - the code-point order that `sorted()` puts keys in, with the ascending key
    list of a dict.
- `PosixPath` (`posix_path.dfy`):
  - `os.path.split`, `os.path.join` and `os.path.splitext`;
  - `split_path`, both as a function and as the accumulating recursive
    procedure it is.
- `Colour` (`colour.dfy`):
  - `color`;
  - `parse_environment_variable`, as a fold `ApplyEntries` over the entries,
    and as the class `ColorTables`, whose method mutates the two
    `defaultdict` tables in place;
  - `setup_color`.
- `Trie` (`trie.dfy`):
  - the parsing half of `add_line`;
  - the trie as an arena `seq<Node>`, with the root at index 0 and children
    mapping a name to an index;
  - the insertion `Insert`;
  - the invariant `WellFormed` that it keeps.
- `Traversal` (`traversal.dfy`): the depth-first order in which `print_tree`
  visits the trie. The children are visited in sorted order. The module proves
  that this order reaches every node but the root exactly once.
- `Printing` (`render.dfy`):
  - the ghost specification `RenderNode`/`RenderKids` of what `print_tree`
    writes, line by line, together with the directory and file counts;
  - the proof that every printed line is for a node other than the root, has
    the `os.path.join` of the names above it as its path, a prefix of four
    characters per level drawn from whether each ancestor was the last of its
    siblings, counts as a directory when the node has children or
    `os.path.isdir` says so, and reads prefix, entry and newline;
  - the summary line.
- `Contents` (`contents.dfy`): what the trie holds after a whole input, as a
  fold `InsertLines` of `Insert` over the lines read. It proves that the
  non-root nodes correspond one to one to the distinct non-empty prefixes of
  the components of the paths read, so that `print_tree` prints one line per
  such prefix.
- `TreeTool` (`tree.dfy`): the `Tree` class, whose fields are:
  - `nodes`, the trie;
  - `dirCount` and `fileCount`;
  - `out`, the lines written so far.

  Its methods `AddLine`, `PrintTree` and `PrintAll` update those fields, and
  each is proved against the functions above.

## Model

| member | source | states |
|---|---|---|
| Text.Strip | tree.py:118 | the result is the input with the maximal leading and trailing runs of whitespace removed; it neither starts nor ends with whitespace |
| Text.StripNoSpaceEnds | tree.py:118 | stripping a line that neither starts nor ends with whitespace leaves it unchanged |
| Text.LeadingSpacesAre | tree.py:118 | the characters `strip` removes in front are exactly the leading whitespace run |
| Text.TrailingSpacesAre | tree.py:118 | the characters `strip` removes at the back are exactly the trailing whitespace run |
| Text.IndexOf | tree.py:133 | the first occurrence of the separator, or none exactly when it does not occur |
| Text.LastIndexOf | tree.py:202 | the last occurrence of a character, or none exactly when it does not occur |
| Text.SplitOn | tree.py:272 | (specification of `str.split(sep)`) at least one piece; its meaning is stated by the lemmas below |
| Text.SplitOnTwo | tree.py:275-276 | `entry.split('=')` has exactly two pieces, so that `match, color = …` unpacks, exactly when `=` occurs once in the entry |
| Text.SplitOnPiecesFree | tree.py:272 | no piece of `str.split(sep)` contains the separator |
| Text.SplitOnJoin | tree.py:272 | joining the pieces of `str.split(sep)` with `sep` gives back the string (round trip) |
| Text.SplitOnConcat | tree.py:272 | splitting `a + sep + b` splits `a` and `b` separately |
| Text.SplitOnNone | tree.py:272 | a string without the separator splits into itself alone |
| Text.SortedKeys | tree.py:233 | `sorted(node.children)`: a duplicate-free sequence holding exactly the keys |
| Text.SortedKeysAscending | tree.py:233 | the sorted keys are strictly ascending in code-point order |
| Text.SortedKeysDistinct | tree.py:233 | two positions of the sorted keys hold different keys |
| Text.SortedKeysLast | tree.py:232-234 | the key at position `j` is the last one exactly when `j == len - 1` |
| Text.LeastExists | tree.py:233 | every non-empty set of names has a least element in code-point order |
| Text.LeTotal | tree.py:233 | the order `sorted` uses is total |
| Text.LeTransitive | tree.py:233 | the order `sorted` uses is transitive |
| Text.LeAntisymmetric | tree.py:233 | the order `sorted` uses is antisymmetric |
| Text.NatToString | tree.py:198 | `str(n)`: decimal digits, without a leading zero unless the number is 0 |
| Text.NatToStringValue | tree.py:198 | the digits of `str(n)` read back as `n` (round trip) |
| PosixPath.RStripSlashes | tree.py:251 | the head with its trailing slashes removed; it no longer ends in a slash; only slashes were removed |
| PosixPath.RFind | tree.py:251 | the index of the last slash, or -1 exactly when there is none |
| PosixPath.Split | tree.py:251 | `os.path.split`: the tail is the slash-free suffix after the last slash; the head is a prefix of the path, followed up to the tail only by slashes; the head is empty exactly when there is no slash; a head that ends in a slash is all slashes and reaches the tail (a root such as `"//"` is kept whole) |
| PosixPath.Join | tree.py:174 | `os.path.join`: ends with the name; an absolute name replaces the parent; otherwise the result is the parent, then one `/` exactly when the parent is non-empty and does not already end in one, then the name |
| PosixPath.JoinThenSplit | tree.py:174 | splitting `join(a, b)` for a plain name `b` gives back `(a, b)` (round trip) |
| PosixPath.SplitExt | tree.py:202 | `os.path.splitext`: the two parts concatenate to the path; a non-empty extension starts with its only dot, contains no slash, and follows a non-dot character of the last component; conversely, when the last dot lies in the last component after a non-dot character, the extension is non-empty and starts at that dot |
| PosixPath.SplitExtLastDot | tree.py:202 | a name `stem.e` whose stem does not end in a dot has extension `.e` |
| PosixPath.SplitExtDotfile | tree.py:202 | a name whose only dot is its first character has no extension |
| PosixPath.Ext | tree.py:202 | (specification) the `ext` half of `os.path.splitext(path)`, described by `SplitExt` |
| PosixPath.SlashFreeAfter | tree.py:202 | no slash follows a position after the last slash |
| PosixPath.SplitPathInto | tree.py:243-258 | `split_path(path, l)` returns `l` followed by the components of `path` |
| PosixPath.SplitPath | tree.py:243-258 | (specification of `split_path(path)`) at least one component; its meaning is stated by the lemmas below |
| PosixPath.SplitAtLastSlash | tree.py:251 | a last slash preceded by a non-slash is where `os.path.split` cuts |
| PosixPath.SplitPathAtLastSlash | tree.py:251-255 | one recursive step of `split_path`: the head's components, then the tail |
| PosixPath.SplitPathNoSlash | tree.py:256-257 | a path without a slash is one component |
| PosixPath.SplitPathRoot | tree.py:252-257 | `"/"` is the single component `"/"` |
| PosixPath.SplitAfterRoot | tree.py:251 | a path whose only slash is its first character splits into `"/"` and the rest |
| PosixPath.SplitPathRootChild | tree.py:243-258 | `"/name"` gives `["/", "name"]` |
| PosixPath.SplitOnAtLast | tree.py:243-258 | `str.split('/')` also separates off the piece after the last slash, which `split_path` and `str.split` agree on |
| PosixPath.SplitOnAtLastShifted | tree.py:243-258 | the same cut, made after the leading slash of an absolute path |
| PosixPath.SplitPathRelative | tree.py:243-258 | for a relative path without doubled slashes, `split_path` is `str.split('/')` |
| PosixPath.SplitPathAbsolute | tree.py:243-258 | for an absolute path without doubled slashes, `split_path` is `"/"` followed by `str.split('/')` of the rest |
| PosixPath.SplitPathPair | tree.py:243-258 | `"a/b"` gives `["a", "b"]`, and `"a/"` gives `["a", ""]` |
| PosixPath.SplitPathTriple | tree.py:243-258 | `"a/b/c"` gives `["a", "b", "c"]` |
| PosixPath.SplitPathUnderRoot | tree.py:243-258 | `"/a/b"` gives `["/", "a", "b"]` |
| PosixPath.RStripAppend | tree.py:251 | stripping trailing slashes from `x + y` touches only `y` when `y` is not all slashes |
| PosixPath.RStripRun | tree.py:251 | stripping trailing slashes from a name followed by a run of slashes gives the name |
| PosixPath.SplitAt | tree.py:251 | `os.path.split` cuts after the last slash and strips the run of slashes before it from the head, unless the head is all slashes |
| PosixPath.SplitBehind | tree.py:251 | when the last slash lies in a part that starts with a non-slash, `os.path.split` cuts there and strips only that part's run of slashes from the head |
| PosixPath.SplitPathStep | tree.py:252-255 | when the head is neither empty nor the whole path, `split_path` recurses on the head and appends the tail |
| PosixPath.SplitPathCollapse | tree.py:243-258 | a run of slashes between a name and the rest gives the same components as a single slash |
| PosixPath.CollapseLast | tree.py:243-258 | a name, a run of slashes and a slash-free last part give the name's components and then that part |
| PosixPath.CollapseStep | tree.py:252-255 | one recursive step of `split_path` past the last slash of the rest, with the remaining head shorter |
| PosixPath.SplitPathSlashesRoot | tree.py:243-258 | a run of slashes followed by a name keeps the run whole as the first component: `"//a"` gives `["//", "a"]` |
| PosixPath.SplitPathDoubled | tree.py:243-258 | a doubled separator is one: `"a//b"` gives `["a", "b"]` |
| Colour.Color | tree.py:294-302 | colour off leaves the text unchanged; colour on wraps it in the SGR sequence for the code and the reset |
| Colour.Lookup | tree.py:56-57 | (specification) a read of a `defaultdict(lambda: '0')`: the stored code, otherwise `"0"` |
| Colour.ParseEntry | tree.py:273-284 | an empty entry is skipped (and only that); an entry is malformed exactly when it is non-empty and `=` does not occur in it exactly once; otherwise it is a main key or, when its match starts with `*.`, an extension without the `*`; key, extension and code contain no `=`, and the parts rebuild the entry |
| Colour.TwoPieces | tree.py:275 | an entry that `=` splits into two pieces is those pieces joined by `=`, and neither piece holds a `=` |
| Colour.ParseEntryExt | tree.py:281-282 | a well-formed `*.ext=code` entry stores `code` under `.ext` |
| Colour.ParseEntryMain | tree.py:283-284 | a well-formed `key=code` entry stores `code` under `key` |
| Colour.ParseEntryMalformed | tree.py:275-279 | an entry with no `=` or with two is malformed |
| Colour.ApplyEntries | tree.py:272-284 | reading stops at a malformed entry of the list, and only at one; when nothing fails, no entry was malformed |
| Colour.ApplyEntriesOtherKeys | tree.py:281-284 | a main key no entry sets keeps the code it read before |
| Colour.ApplyEntriesOtherExts | tree.py:281-282 | an extension no entry sets keeps the code it read before |
| Colour.ApplyEntriesAppend | tree.py:272-284 | reading `e1 + e2` reads `e1`, then `e2` from there, unless `e1` failed |

| Colour.LastEntryWins | tree.py:281-284 | when reading succeeds, a last entry for key `k` decides `k`'s code |
| Colour.TreeColorsWin | tree.py:289-291 | a `key=code` entry at the end of `TREE_COLORS` overrides whatever `LS_COLORS` said |
| Colour.ApplyVariable | tree.py:270-284 | (specification of `parse_environment_variable(var)`) nothing for an unset variable; otherwise the entries of `value.split(':')` in turn, with exit status 1 and the error message on the first malformed one |
| Colour.SetupSpec | tree.py:261-291 | (specification of `setup_color`) nothing with colour off; otherwise the `count` and `bin` defaults, then `LS_COLORS`, then `TREE_COLORS`; its properties are the lemmas above |
| Colour.SetupColourOff | tree.py:267-268 | with colour off nothing is stored: every lookup reads the default `"0"` |
| Colour.SetupDefaults | tree.py:286-287 | with colour on and neither variable set, only `count` (`01;32`) and `bin` (`01;35`) are stored |
| Colour.ColorTables.constructor | tree.py:56-57 | both tables start empty |
| Colour.ColorTables.ParseVariable | tree.py:270-284 | the entry loop leaves the tables and the outcome `ApplyVariable` describes (exit status 1 on a malformed entry) |
| Colour.ColorTables.Setup | tree.py:261-291 | the tables and outcome `SetupSpec` describes |
| Trie.ParseLine | tree.py:118-139 | the line is stripped; no-input mode yields no path (and only it); normal mode takes the whole stripped line; grep mode parses it |
| Trie.ParseGrep | tree.py:126-139 | a grep line is rejected exactly when it is no binary-file report and has no colon; a match line gives the text before its first colon; a binary report is flagged `binary` |
| Trie.ParseBinaryLine | tree.py:128-130 | `Binary file X matches` gives back `X`, flagged binary |
| Trie.ParseMatchLine | tree.py:133-139 | `f:m` with a colon-free `f` gives `f` with an empty `info` |
| Trie.ParseNotGrep | tree.py:134-137 | a line with no colon that is no binary report is rejected with itself as the message |
| Trie.Empty | tree.py:83-90 | (specification) a fresh `Tree`: one unlabelled root with no children, count 0 and no `info` |
| Trie.BinaryPath | tree.py:129 | (specification) `line[12:][:-8]` |
| Trie.EmptyWellFormed | tree.py:107 | a fresh trie satisfies the invariant |
| Trie.WellFormed | tree.py:143-154 | (specification) the invariant `add_line` keeps: children after their parent, labelled by their key, each with one parent; a node is marked exactly when it has an `info`; every childless non-root node is marked; the root never is |
| Trie.WellFormedPrintable | tree.py:191 | in a well-formed trie every childless labelled node has an `info` dict, so the lookup of `'binary'` is defined |
| Trie.AddChild | tree.py:148-149 | one fresh childless unmarked node labelled `seg` is appended; the current node gains the child `seg` pointing to it and keeps its label, count and `info`; every other node is unchanged |
| Trie.Mark | tree.py:153-154 | the end node's count goes up by one and its `info` becomes the line's; its label and children stay; every other node is unchanged |
| Trie.AddChildShaped | tree.py:148-149 | adding a child keeps child indices after their parent and inside the arena |
| Trie.AddChildLabelled | tree.py:148-149 | adding a child keeps every child labelled with its key |
| Trie.AddChildConnected | tree.py:148-149 | adding a child keeps every node hanging below an earlier one |
| Trie.AddChildUniqueParents | tree.py:148-149 | adding a child keeps each node the child of one node only |
| Trie.AddChildMarked | tree.py:148-149 | only the freshly added node is unmarked while the walk continues |
| Trie.AddChildKeepsMarks | tree.py:148-149 | adding a child changes no node's count or `info` |
| Trie.MarkKeepsShape | tree.py:153-154 | marking the end node keeps the shape, labels and unique parents |
| Trie.MarkKeepsConnected | tree.py:153-154 | marking the end node keeps the arena connected |
| Trie.MarkMarked | tree.py:153-154 | after marking, every childless non-root node has been the end of a line |
| Trie.DescendMarked | tree.py:151 | descending into an existing child leaves the node behind with a child |
| Trie.Insert | tree.py:143-154 | (spec of the walk) the arena after inserting the components: never smaller, still shaped |
| Trie.Walk | tree.py:146-151 | following components from a node ends inside the arena when it succeeds |
| Trie.InsertWellFormedFrom | tree.py:143-154 | an insertion started mid-walk restores the trie invariant |
| Trie.InsertWellFormed | tree.py:143-154 | `add_line` keeps the trie a tree: rooted, labelled by key, each node with one parent, and every childless node marked |
| Trie.InsertGrows | tree.py:148-149 | insertion never removes or renames a node or a child |
| Trie.WalkGrows | tree.py:146-151 | a path present before an insertion leads to the same node after it |
| Trie.WalkStep | tree.py:146-151 | one step of the walk: through the child named by the first component |
| Trie.WalkPrefix | tree.py:146-151 | when a sequence of names leads somewhere, so does each of its prefixes |
| Trie.InsertNewNode | tree.py:148-149 | every node an insertion creates is reached from the start node by a non-empty prefix of the components inserted |
| Trie.NewNodeStep | tree.py:146-151 | a walk below the child named by the first component extends to a walk from the parent |
| Trie.InsertMarksTerminal | tree.py:143-154 | after insertion the path leads to a node whose count went up by exactly one and whose `info` is the line's; an existing path keeps its node |
| Trie.InsertLeavesOthers | tree.py:143-154 | no node but the end node changes count or `info`; new nodes other than it are unmarked |
| Trie.InsertDescends | tree.py:146-151 | one step of the walk: the rest of the insertion happens below the (possibly new) child named by the first component |
| Trie.InsertExisting | tree.py:143-154 | inserting a path already present only marks its node |
| Trie.InsertBelowLeaf | tree.py:148-149 | below a childless node every component creates a node |
| Trie.InsertAddsAtMostSegs | tree.py:148-149 | an insertion creates at most one node per component |
| Trie.InsertTimes | tree.py:143-154 | repeated insertion keeps the arena shaped |
| Trie.InsertRepeatedly | tree.py:143-154 | `n` lines with the same path give one node per component, the last with count `n` |
| Traversal.Parent | tree.py:148-149 | every non-root node has an earlier parent holding it under its own name |
| Traversal.ParentOfChild | tree.py:148-149 | the parent of a child is the node holding it |
| Traversal.ChildrenDistinct | tree.py:148-149 | different names lead to different children |
| Traversal.DescendsBound | tree.py:148-149 | an ancestor has a smaller index |
| Traversal.DescendsTransitive | tree.py:146-151 | descent composes |
| Traversal.DescendsFromRoot | tree.py:144-151 | every node lies below the root |
| Traversal.AncestorsChain | tree.py:146-151 | two ancestors of one node are ancestor and descendant of each other |
| Traversal.SiblingsDisjoint | tree.py:233-240 | no node lies below two different siblings |
| Traversal.SiblingAbove | tree.py:233-240 | a sibling never lies below another |
| Traversal.Depth | tree.py:208 | depth 0 exactly for the root |
| Traversal.AncestorAt | tree.py:219-224 | the ancestor at a given depth, which the node descends from |
| Traversal.AncestorOfChild | tree.py:219-224 | a child shares its parent's ancestors |
| Traversal.Keys | tree.py:233 | the keys visited all are children of the node |
| Traversal.Below | tree.py:231-240 | the nodes `print_tree` reaches below `i` all have larger indices |
| Traversal.BelowKids | tree.py:231-240 | the nodes reached below the children from the `j`-th on |
| Traversal.BelowSound | tree.py:231-240 | everything reached below `i` descends from `i` |
| Traversal.BelowKidsSound | tree.py:231-240 | everything reached below the children of `i` descends from `i` |
| Traversal.BelowKidsHas | tree.py:231-240 | a node below a later child is reached |
| Traversal.KidHolding | tree.py:231-240 | a node reached below the children lies at or below one of them |
| Traversal.ChildOnPath | tree.py:231-240 | a proper descendant of `i` descends from one of its children |
| Traversal.BelowComplete | tree.py:231-240 | every proper descendant of `i` is reached |
| Traversal.NotInLaterKids | tree.py:231-240 | a node below an earlier child is not reached again below later ones |
| Traversal.NotInLaterKid | tree.py:231-240 | a node below one child is neither a later child nor below it |
| Traversal.BelowNoDup | tree.py:231-240 | no node is reached twice below `i` |
| Traversal.BelowKidsNoDup | tree.py:231-240 | no node is reached twice below the children from the `j`-th on |
| Traversal.KidsNoDupStep | tree.py:231-240 | one child's nodes added in front keep the visit free of duplicates |
| Traversal.HereBeforeRest | tree.py:231-240 | a child and its nodes are not reached again below later children |
| Traversal.BelowRootCovers | tree.py:231-240 | the nodes reached from the root are exactly those other than the root |
| Traversal.NonRoot | tree.py:231-240 | the list of all non-root indices has no duplicates and covers them |
| Traversal.VisitsEveryNodeOnce | tree.py:231-240 | the traversal from the root reaches each of the other nodes exactly once |
| Traversal.PathOf | tree.py:171-174 | (specification) the `path` `print_tree` accumulates: `os.path.join` of the names from the root down to the node |
| Traversal.IsLastChild | tree.py:232-234 | (specification) the node's name is the last of its parent's sorted names |
| Traversal.NamesTo | tree.py:146-151 | the names from the root to a node, one per level below the root |
| Traversal.WalkSnoc | tree.py:146-151 | walking one more name continues from where the walk ended, and fails when it failed |
| Traversal.WalkNamesTo | tree.py:146-151 | walking a node's names from the root reaches that node |
| Traversal.WalkDetermines | tree.py:146-151 | a walk from the root to a node follows exactly that node's names |
| Traversal.NamesToInjective | tree.py:148-149 | two different nodes have different names from the root |
| Printing.Segments | tree.py:219-224 | `child_prefix` has four characters per bit |
| Printing.SegmentsBlock | tree.py:219-224 | block `k` of `child_prefix` is a vertical line for a true bit, blank for a false one |
| Printing.PrefixOf | tree.py:226-229 | the prefix string built from bits has four characters per bit |
| Printing.PrefixBlock | tree.py:226-229 | every block of a prefix string but the last is a column; the last is a tee or, for the last child, a corner |
| Printing.ExtendedPrefix | tree.py:226-229 | `child_prefix + Tee`/`Bottom` is the prefix of the extended bits |
| Printing.ChildBits | tree.py:226-227 | (specification) the bits a child is printed with: below a labelled node one more, true unless it is the last child |
| Printing.ChildString | tree.py:219-229 | (specification) the prefix string a child is printed with: the parent's columns and a tee or, for the last child, a corner; below the root none |
| Printing.RenderNode | tree.py:157-240 | (specification of `print_tree(node, prefix, prefix_string, parent_path)`) the node's own line unless it is the root, then its children's lines; its properties are the lemmas below |
| Printing.RenderKids | tree.py:231-240 | (specification) the lines of the children from the `j`-th on, in sorted order |
| Printing.Render | tree.py:157-240 | (specification) the whole of `print_tree()`'s output from the root |
| Printing.Annotation | tree.py:189-200 | outside grep mode nothing; in grep mode `[BIN] ` for a binary match, else `[count] `, with `BIN` or the count wrapped in the SGR sequences of the `bin` or `count` colour when colour is on |
| Printing.EntryText | tree.py:180-204 | a directory is its name, in the `di` colour when colour is on; a file is its annotation then its name, the name in the colour of its extension when colour is on; without colour the entry ends with the name |
| Printing.LineOf | tree.py:173-206 | the line's path is `join(parent_path, label)`, a node with children counts as a directory, and its text is prefix, entry and newline |
| Printing.OwnLines | tree.py:173 | the root prints no line; any other node prints one |
| Printing.RenderNodeUnfold | tree.py:157-240 | `print_tree` writes the node's own line, then its children's |
| Printing.RenderKidsUnfold | tree.py:231-240 | the children's lines are the `j`-th child's followed by the later ones' |
| Printing.NodesOf | tree.py:173-206 | one node per line |
| Printing.Texts | tree.py:176-206 | one text per line |
| Printing.CountsAppend | tree.py:180-187 | directory and file counts add up over concatenated output |
| Printing.CountsTotal | tree.py:180-187 | every printed line counts as exactly one of directory or file |

| Printing.WriteConcat | tree.py:176-206 | writing two runs of lines in turn is writing them at once |
| Printing.NodesOfAppend | tree.py:231-240 | the nodes of concatenated output concatenate |
| Printing.TextsAppend | tree.py:176-206 | the texts of concatenated output concatenate |
| Printing.NodesOfIndex | tree.py:173-206 | entry `k` of the nodes is line `k`'s node |
| Printing.RenderNodeOrder | tree.py:157-240 | the lines below a node are for exactly the traversal order, the labelled node's own line first |
| Printing.RenderKidsOrder | tree.py:231-240 | the children's lines follow the traversal order of the children from the `j`-th on |
| Printing.KidsOrderStep | tree.py:231-240 | one child's lines in front extend the traversal order by that child's part |
| Printing.KidsWrite | tree.py:231-240 | writing the children from the `j`-th on writes the `j`-th child, then the later ones |
| Printing.RenderVisitsEachNodeOnce | tree.py:157-240 | `print_tree()` prints one line for each node but the root, each exactly once, in traversal order |
| Printing.LastChildAt | tree.py:232-234 | the child visited `j`-th is the last of its siblings exactly when `j` is the last index |
| Printing.ChildBitsFit | tree.py:226-227 | a child's bits record, for each ancestor below the top level and for itself, whether it was not the last sibling |
| Printing.ChildBit | tree.py:226-227 | each bit of a child's bits says whether the matching ancestor was not the last |
| Printing.TopBitsFit | tree.py:213-216 | top-level children are printed with no bits |
| Printing.OwnLineFits | tree.py:173-206 | a non-root node's own line fits: its path, prefix and text are as promised |
| Printing.KidArgsFit | tree.py:210-240 | the arguments each child is printed with are its own bits, prefix and parent path |
| Printing.RenderNodeFits | tree.py:157-240 | every line printed below a node fits |
| Printing.RenderKidsFits | tree.py:231-240 | every line printed below the children fits |
| Printing.RenderLinesFit | tree.py:157-240 | every line of the output is for a non-root node, its path is `PathOf` the node, its prefix is `PrefixOf` its bits, its bits record which ancestors were not last, it is a directory exactly when the node has children or `isDir(path)`, and its text is prefix, entry and newline |
| Printing.LineFits | tree.py:171-206 | (specification) what a printed line must be, as listed for `RenderLinesFit` |
| Printing.BitsFit | tree.py:210-229 | (specification) one bit per ancestor below the top level and one for the node, each true exactly when that one is not the last of its siblings |
| Printing.PrefixColumns | tree.py:210-229 | a line's prefix has four characters per level below the top; each ancestor column is a vertical line or blank as that ancestor was not or was the last sibling; the last block is a tee or, for a last child, a corner |
| Printing.Summary | tree.py:364-367 | `"\n{n} director(y/ies), {m} file(s)"` plus print's newline: singular exactly when the count is 1 |
| TreeTool.ChildPrefix | tree.py:219-224 | the `child_prefix` loop builds `Segments(prefix)` |
| TreeTool.ChildPrefixes | tree.py:212-229 | the mid and bottom bits and prefix strings are those `RenderKids` gives to a non-last and to the last child |
| TreeTool.Tree.constructor | tree.py:101-110 | an empty trie with zero counts and no output |
| TreeTool.Tree.AddLine | tree.py:112-154 | a line without a path changes nothing; a rejected grep line exits with status 0 and the error message, leaving the trie alone; otherwise the trie becomes `Insert` of the components, and stays well formed |
| TreeTool.Tree.InsertPath | tree.py:143-154 | the walk loop leaves exactly `Insert(old nodes, root, components)` |
| TreeTool.Tree.Emit | tree.py:176-206 | writing one line adds its text and bumps the directory or file counter |
| TreeTool.Tree.PrintTree | tree.py:157-240 | the recursive printer writes exactly `RenderNode`'s lines and counts them |
| TreeTool.Tree.PrintChildren | tree.py:210-240 | the children loop writes exactly `RenderKids`'s lines |
| TreeTool.Tree.PrintAll | tree.py:362-367 | the output is every line of `Render`, then the summary of the counts; the counts grow by one per node but the root |
| Contents.InsertLines | tree.py:112-154 | the trie after `add_line` has inserted each path read, in order, from a fresh `Tree`: always well formed |
| Contents.InsertLinesLast | tree.py:143-154 | the trie after all lines is the trie after all but the last, with the last path's components inserted |
| Contents.InsertLinesSnoc | tree.py:143-154 | one more path read is one more `Insert` of its components, as `TreeTool.Tree.AddLine` performs |
| Contents.PrefixReached | tree.py:143-151 | every non-empty prefix of the components of a path read leads from the root to a node |
| Contents.InsertReachesPrefix | tree.py:143-151 | after inserting components from the root, each of their prefixes leads from the root to a node |
| Contents.InsertKeepsWalk | tree.py:146-151 | an insertion keeps every walk from the root that already succeeded, ending at the same node |
| Contents.NodeIsPrefix | tree.py:143-151 | every node but the root is reached by a non-empty prefix of the components of some path read |
| Contents.InsertKeepsNames | tree.py:148-149 | an insertion keeps the trie well formed and leaves the names from the root of existing nodes alone |
| Contents.InsertNamesNew | tree.py:148-149 | a node an insertion creates is named from the root by a non-empty prefix of the inserted components |
| Contents.WalkInsertLines | tree.py:143-151 | a non-empty sequence of names leads from the root to a node exactly when it is a prefix of the components of a path read |
| Contents.InPrefixes | tree.py:143-151 | the set `Prefixes` holds exactly the non-empty component prefixes of the paths read |
| Contents.NamesBelowCard | tree.py:148-149 | the nodes below the root have as many distinct names as there are nodes |
| Contents.NamesBelowStep | tree.py:148-149 | each further node adds a name none of the earlier nodes has |
| Contents.PrefixesAreNames | tree.py:143-154 | the names of the non-root nodes are exactly the distinct non-empty component prefixes of the paths read |
| Contents.RenderCountsPrefixes | tree.py:157-240 | `print_tree()` prints one line per distinct non-empty component prefix of the paths read, so the directory and file counts add up to their number |

## Left out

- Argument parsing, the reading of standard input, and the `KeyboardInterrupt`
  and `UnicodeDecodeError` handling in `main` (tree.py:304-360). Lines reach
  the model one at a time as `TreeTool.Tree.AddLine` arguments.
- The `NoInput` mode's "not supported" exit in `main` (tree.py:344-347). This
  is I/O around the core. In that mode `Trie.ParseLine` yields no path.
- `os.environ`: the two variables are `Option<string>` parameters.
- `os.path.isdir`: a function parameter `isDir` of the style. It is consulted
  exactly where the source consults it.
- `sys.stdout`: output is a sequence of strings, one per printed line, and the
  summary is one more entry. The separate `write` calls that make up a line
  are joined.
- Process exit: `exit()` is an `Outcome` returned to the caller. The caller
  does not stop the run itself.
- `exit()` at tree.py:137 is called without an argument, and Python's
  `exit()` without an argument ends with status 0. The model returns
  `Exit(0, …)` there, unlike the `exit(1)` on a malformed colour entry at
  tree.py:279.
- Bytes, encodings and terminal width: strings are sequences of Unicode code
  points.
- Printing.Summary: states the opening and closing parts of the line. The
  middle `", "` separator follows from the body.

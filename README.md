# git-dirheat: numstat parsing, directory tree and treemap export

git-dirheat turns the history of a git repository into a "heat map" of its
directories. It reads the output of
`git log --numstat --pretty=format: --no-merges` line by line. It counts how
many commits changed each file path: the `fileChangeCounts` map. It builds a
tree of directory and file nodes from those paths, and adds the file counts up
into every directory (`aggregateCounts`). It then exports the tree as nested
`{name, value, children}` nodes for a D3.js treemap, with each child list
sorted by decreasing value and children of value 0 dropped (`ToJSONNode`).

This project models that core of `main.go` in Dafny:

- `gostrings.dfy` (module `GoStrings`): the functions of Go's `strings`
  package the parser calls. These are `Fields`, `TrimSpace`, `Trim`,
  `TrimLeft`, `TrimPrefix`, `TrimSuffix`, `Index`, `Contains` and `Split`.
  `TrimLeft`, `TrimPrefix`, `TrimSuffix`, `Index` and `Contains` are
  characterised by their contracts alone. `Fields` is characterised by its
  contract together with `FieldsKeepText`, `FieldsCons`, `FieldsOfLeadingSpace` and
  `FieldsOfWord`; `Trim` and `TrimSpace` by theirs together with
  `TrimIsSlice` and `TrimSpaceIsSlice`. The contract of `Split` fixes its
  result only for a separator that cannot overlap itself, such as `=>` and
  `/`, the only separators the program passes.
- `numstat.dfy` (modules `Numstat`, `NumstatFacts`): the decision the parse
  loop takes for one line, as the function `ParseLine`, and what it does on
  the line shapes git prints. This covers plain lines, renames in braces,
  renames of whole paths, and lines with too few fields.
- `changecounts.dfy` (modules `ChangeCounts`, `ParseLoop`): the counting loop.
  It is a method proved equal to a fold of `ParseLine` over the lines. Each
  key's count is the number of lines that record it, and the counts add up to
  the number of accepted lines.
- `tree.dfy`, `walk.dfy`, `repotree.dfy` (modules `Tree`, `Walk`,
  `RepoTrees`): the node tree. The Go `*Node` objects live in an arena: the
  class `RepoTree` holds a sequence of nodes, and a pointer is an index into
  it. The root is node 0, and every child has a larger index than its parent.
  `NewNode`, `ensurePath`, `aggregateCounts` and `ToJSONNode` are methods of
  that class. Each is proved against a specification function: `EnsureFrom`,
  `AggSpec` and `Total`, and the `ExportOf` relation.
- `conservation.dfy` (module `Conservation`): the value that
  `aggregateCounts` leaves in a node is the sum of the counts of the file
  nodes below it.
- `export.dfy` (module `Export`): the exported node type and the ordering of
  child lists.
- `build.dfy` (module `Build`): the tree-building loop and the whole
  pipeline, from the numstat lines to the exported root.
- `sums.dfy` (module `Sums`): the sum of the values of a map, used by the
  counting and aggregation proofs.

Where the code and the documented behaviour of the tool differ, the model
follows the code:

- A rename written inside a directory, `0<TAB>0<TAB>src/{old.go => new.go}`,
  has five fields. The parser therefore takes the third field and records
  `src/{old.go`, not `src/new.go`. See
  `NumstatFacts.BraceRenameWithSpacesKeepsSourceHalf`.
- A whole-path rename, `1<TAB>0<TAB>{old/path.go => new/path.go}`, records
  `old/path.go`, with its leading `{` stripped. See
  `NumstatFacts.WholePathRenameKeepsSource`.
- A line with three or more fields is taken as a change record whether or not
  it contains `=>`.
- When a two-field rename line goes through the first brace pattern, the
  prefix it keeps is all of the line before `{`. That includes the numeric
  field and its tab. See `NumstatFacts.TwoFieldRenameKeepsNumericPrefix`.
- The final part of a path reuses an existing node with its kind unchanged.
  A file node that later receives a child becomes a directory, and its own
  count no longer counts.
- A node the walk creates for the last non-empty part of a key ending in `/`
  is a directory. An existing node keeps its kind.
- Keys that trim to the same path (`a/{b}` and `a/b`) overwrite one another
  instead of adding up. The last one visited wins (`Build.BuildLastWins`).
- Because of the two points above, the result can depend on Go's random map
  order. Take the keys `a` and `a/`:
  - Visited `a` first: `a` is a file, and `a/` then writes its count there,
    so `a` is exported.
  - Visited `a/` first: `a` is a directory without children, which
    aggregates to 0 and is pruned from the export.
- Siblings of equal value appear in an unspecified order. Go's `sort.Slice`
  is not stable, and the loop visits the children map in random order.
- A node with children always gets a child list, which may be empty when
  every child has value 0. The JSON encoder's `omitempty` then hides an empty
  list; the model keeps `Some([])`.

## Model

| member | source | states |
|---|---|---|
| GoStrings.Fields | main.go:168 | every field is non-empty and holds no white space |
| GoStrings.FieldsOfLeadingSpace | main.go:168 | white space before a line adds no field |
| GoStrings.FieldsCons | main.go:168 | a word followed by white space is the first field, and the rest of the line gives the others |
| GoStrings.FieldsOfWord | main.go:168 | a non-empty word without white space is its own only field |
| GoStrings.FieldsKeepText | main.go:168 | the fields hold exactly the non-space characters of the line, in order; there are none iff the line is all white space |
| GoStrings.FieldsOfJoin | main.go:168 | round trip: the fields of words joined by white space are those words |
| GoStrings.IndexOf | main.go:175-177 | the result is -1 or a position where the pattern occurs, and no earlier position has it |
| GoStrings.Contains | main.go:173 | true iff the pattern occurs somewhere |
| GoStrings.Split | main.go:182 | joining the pieces with the separator gives the input back, and no piece contains the separator |
| GoStrings.Trim | main.go:255 | the result neither starts nor ends with a cut character; an input made only of cut characters gives ""; an input with clean ends is unchanged |
| GoStrings.TrimLeft | main.go:228 | the result is a suffix of the input; everything dropped is in the cut set, and the result does not start with one |
| GoStrings.TrimRight | main.go:255 | the result is a prefix of the input; everything dropped is in the cut set, and the result does not end with one |
| GoStrings.TrimSpace | main.go:185 | the result neither starts nor ends with white space; a word without white space is unchanged |
| GoStrings.TrimIsSlice | main.go:255 | what Trim keeps is the contiguous piece of its input starting at some `a`, and every character before and after that piece is a cut character; with Trim's clean ends this fixes the result, so cut characters inside the text stay |
| GoStrings.TrimSpaceIsSlice | main.go:185 | what TrimSpace keeps is a contiguous piece of its input, and only white space is dropped before and after it |
| GoStrings.TrimPrefix | main.go:193 | input = prefix + result when the prefix is present, else the input is unchanged |
| GoStrings.TrimSuffix | main.go:194 | input = result + suffix when the suffix is present, else the input is unchanged |
| Numstat.Normalize | main.go:227-228 | the normalised path is empty or a valid key: it does not start with `{` or a space and does not end in white space |
| Numstat.NormalizeKeepsCleanPath | main.go:227-228 | a path with clean ends and no leading `{` is recorded unchanged |
| Numstat.Accept | main.go:227-232 | a record keeps both numeric fields and a valid key; the only way to be dropped here is an empty path |
| Numstat.ParseLine | main.go:161-233 | empty line ⇔ skipped as empty; malformed ⇔ fewer than 3 fields and no `=>`; a record carries the first two fields as its numeric fields and a valid key; a record from fewer than 3 fields has exactly 2 fields and contains `=>` |
| Numstat.ChangeAmount | main.go:220-225 | every accepted line weighs 1, with numbers or `-` alike |
| NumstatFacts.ThirdFieldRecorded | main.go:213-218 | a line with 3+ fields records its third field minus leading `{`, even when it holds `=>` |
| NumstatFacts.RenameBranchSkips | main.go:199-208 | in the rename branch: skipped as unparsed ⇔ no destination; skipped for lack of numeric fields ⇔ a destination but fewer than 2 fields |
| Numstat.RenameDestinationTrimmed | main.go:174-197 | a rename destination, from either brace pattern, has no white space at either end, and only a line holding a `{` yields one |
| NumstatFacts.RenameBranchRecorded | main.go:173-232 | a two-field line with `=>` and a destination that normalises to a non-empty path records that path |
| NumstatFacts.SplitRenameInside | main.go:182-183 | the inside of `{src=>dst}` splits into exactly [src, dst] |
| NumstatFacts.BraceRenameDestination | main.go:175-186 | for `pre{src=>dst}post`, the destination is TrimSpace(pre + dst) |
| NumstatFacts.OpenBraceRenameDestination | main.go:187-196 | for a line starting `{src=>dst`, the destination is dst with one leading space dropped, then trimmed |
| NumstatFacts.BraceRenameWithSpacesKeepsSourceHalf | main.go:168-218 | `a<TAB>d<TAB>dir{src => dst}` records `dir{src` |
| NumstatFacts.WholePathRenameKeepsSource | main.go:168-218 | `a<TAB>d<TAB>{src => dst}` records `src` |
| NumstatFacts.TwoFieldRenameKeepsNumericPrefix | main.go:171-186 | `a<TAB>dir{src=>dst}` records `a<TAB>dirdst` (the added field, a tab, `dir` and `dst` run together with no space): the added field lands in the path, and the second field is taken as the deleted count |
| ChangeCounts.Apply | main.go:229-231 | a skip leaves the counts unchanged; a record adds 1 to its path's count and changes nothing else |
| ChangeCounts.Step | main.go:161-232 | one line: skipped lines change nothing; a recorded path's count goes up by one, other keys unchanged |
| ChangeCounts.Tally | main.go:157-233 | the counts after the loop: every key's count is at least 1 |
| ChangeCounts.TallyCountsOccurrences | main.go:157-233 | after all lines, a path is a key iff some line records it, and its count is the number of such lines |
| ChangeCounts.TallyKeysAndCounts | main.go:229-231 | every key is a valid normalised path with a count of at least 1 |
| ChangeCounts.TallySum | main.go:157-233 | the counts add up to the number of accepted lines |
| ParseLoop.CountLine | main.go:162-232 | the loop body computes exactly one step of the fold |
| ParseLoop.CountChanges | main.go:157-233 | the loop computes the fold: keys iff occurrences, counts = occurrences, total = accepted lines |
| Tree.Segments | main.go:51-53 | no segment is empty and there are no more segments than parts; which parts are kept, and in what order, is stated by `SegmentsSingle` and `SegmentsAppend` |
| Tree.SegmentsOfNonEmpty | main.go:51-53 | parts that are all non-empty are kept as they are |
| Tree.SegmentsSingle | main.go:50-53 | a single part is walked when non-empty and skipped when empty |
| Tree.SegmentsAppend | main.go:50-53 | the segments of two lists one after the other are the segments of each, in order: empty parts are dropped wherever they sit and the others keep their order |
| Tree.LookupPath | main.go:46-68 | the node reached along a path of children has that path appended to the start node's path |
| Tree.AggIdempotent | main.go:72-83 | aggregating twice is aggregating once |
| Tree.AggConservation | main.go:72-83 | after aggregation every directory below holds the sum of its children's values, and every file keeps its count |
| Tree.AggFrame | main.go:72-83 | aggregation keeps the tree well formed, changes only values, and changes nothing outside the subtree |
| Tree.AggRoot | main.go:263 | after aggregating from the root, the root holds the total and keeps its name |
| Tree.AggOfFile | main.go:73-75 | aggregating a file changes nothing |
| Tree.Attach | main.go:59-63 | creating a missing child appends exactly one node to the arena |
| Tree.AttachFacts | main.go:59-63 | attaching a new child keeps the tree well formed and every existing link, and makes the child reachable under its name |
| Walk.Descend | main.go:55-65 | one part: an existing child leaves the arena unchanged; a missing one appends exactly one node, which is the node reached |
| Walk.DescendFacts | main.go:55-65 | one part: an existing child is reused unchanged; a missing one is a new node of value 0 with no children, a file exactly when asked |
| Walk.EnsureFrom | main.go:46-68 | the walk keeps the tree well formed and ends at the start node or a later one |
| Walk.EnsureReaches | main.go:46-68 | the walk only adds to the tree, and the node returned is the one the non-empty parts lead to |
| Walk.EnsureMoves | main.go:50-53 | parts that are all empty leave the tree and the position unchanged; otherwise the walk moves to a later node |
| Walk.EnsureExisting | main.go:55-65 | walking an existing path creates nothing and returns its node |
| Walk.EnsureCreates | main.go:57-60 | created nodes have value 0; only the node returned can be a file, and it is one iff the last part is non-empty |
| RepoTrees.RepoTree.constructor | main.go:246 | a tree holding only the root directory, with the given name, an empty path, value 0 and no children |
| RepoTrees.RepoTree.NewNode | main.go:34-42 | appends a node with value 0 and no children, and returns its index |
| RepoTrees.RepoTree.EnsurePath | main.go:46-68 | the nodes and the node returned are exactly those of the walk `EnsureFrom` from the root |
| RepoTrees.RepoTree.AggregateCounts | main.go:72-83 | the new nodes are `AggSpec` of the old ones, and the sum returned is the subtree total |
| RepoTrees.RepoTree.AggregateChildren | main.go:77-80 | the loop: every child's subtree is aggregated, and the sum returned is the sum of the children's totals |
| RepoTrees.RepoTree.AggregateChild | main.go:78-80 | one loop turn: the child's subtree is aggregated, and its total is added to the sum |
| RepoTrees.RepoTree.ToJSONNode | main.go:86-108 | the result is the export of the node: name, value, and the sorted exports of its positive-valued children |
| RepoTrees.RepoTree.ExportChildren | main.go:92-99 | exactly the children of positive value are exported, each once |
| Export.InsertPerm | main.go:101-104 | inserting adds exactly the one element |
| Export.InsertSorted | main.go:101-104 | inserting into a list sorted by decreasing value keeps it sorted |
| Export.SortByValueDesc | main.go:101-104 | the result is a permutation of the input, sorted by decreasing value |
| Conservation.TotalIsFileSum | main.go:72-83 | a node's aggregate is the sum of the counts of the file nodes in its subtree |
| Conservation.AggSumsFiles | main.go:72-83 | after aggregation, a node's value is the sum of the counts of the files below it |
| Conservation.SubtreesDisjoint | main.go:78-80 | the subtrees of two different children share no node, so no file is counted twice |
| Build.RootName | main.go:242-245 | the root is named after the base name, except `.` and `/`, which become `repository_root` |
| Build.SanitizedClean | main.go:254-256 | trimmed parts have no space or brace at either end; clean parts are kept; parts made only of junk become empty |
| Build.SanitizedIsSlice | main.go:254-256 | a trimmed part is the contiguous piece of the part starting at some `a`, with only spaces and braces dropped before and after it: junk inside the part stays |
| Build.PathOfCleanKey | main.go:252-257 | a key whose parts are non-empty and clean sits at the path of its `/`-separated parts |
| Build.SanitizeParts | main.go:254-256 | the array is trimmed in place, part by part |
| Build.AddFileFacts | main.go:248-259 | one turn keeps every existing link and writes a non-zero count into the node at the key's path, leaving every other value alone |
| Build.AddFile | main.go:248-259 | one turn of the loop as a function keeps the arena well formed |
| Build.Build | main.go:248-259 | the loop over a visiting order, as a fold of `AddFile`, keeps the arena well formed |
| Build.AddPath | main.go:252-258 | one loop turn as a method equals the functional turn `AddFile` |
| Build.BuildReaches | main.go:248-259 | after the loop, every key with a non-zero count has a node at its path |
| Build.LookupDistinct | main.go:248-259 | nodes at different paths are different nodes |
| Build.BuildLastWins | main.go:248-259 | a key's node holds its count unless a later key with the same trimmed path overwrites it |
| Build.BuildTree | main.go:246-259 | the loop visits every key once in some order, and the tree is the fold over that order |
| Build.AnalyzeRepo | main.go:157-264 | the exported root is the export of the aggregated tree built from the counted lines, visiting every counted key exactly once in some order; its value is the sum of the file counts |

## Left out

- Running git, the `.git` check, the fetch-and-retry logic, logging,
  `sync.Once` and the HTTP handlers. Lines reach the model as a sequence of
  strings; the scanner's line splitting and its errors are not modelled.
- The `processedLines` counter is only logged and is not modelled.
- `filepath.Base` is not modelled. `Build.RootName` takes the base name as a
  parameter.
- `filepath.ToSlash` is taken to be the identity, as on Unix.
- `filepath.Join` for a node's `Path` is not modelled. A path is the list of
  segments from the root; the slash-joined string is not built.
- White space is the six ASCII white-space characters. The
  Unicode spaces that `unicode.IsSpace` also accepts are not modelled, and
  strings are sequences of characters rather than UTF-8 bytes.
- The JSON encoding is not modelled; the model stops at the exported node
  value.
- RepoTrees.RepoTree.ToJSONNode: the order of siblings with equal values is
  left open. The Go code's order depends on map iteration and an unstable
  sort.
- Build.BuildTree: the order in which the map's keys are visited is a
  parameter (`order`) of the specification, because Go randomises map
  iteration.
- Aliasing between nodes: the arena gives every node its own index. The
  sharing of `*Node` pointers that the Go code never creates is not
  modelled.

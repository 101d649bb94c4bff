# File Mixer, modelled in Dafny

File Mixer is a small browser tool. The user drops a folder. The page keeps
the files whose extension is on an allow-list and builds a directory tree
from their relative paths. The tree widget selects every file leaf. It shows
the selected paths as a list. Each entry has a remove button, and below the
list is a "Mix Selected Files" button. Removing an entry reports the remaining
paths to the page, which merges them at once. The Mix button reports all
selected paths. The page resolves the reported paths back to files and
downloads one text that holds each file under a header.

This project models that logic and proves properties of it:

- `js_strings.dfy` (module `JsStrings`) holds the JavaScript string operations
  the code relies on: `join`, one-character `split`, `split(c).pop()` and
  `toLowerCase`. `Split` and `JoinWith` are proved to be inverses.
- `intake.dfy` (module `Intake`) holds the page's intake:
  - the extension filter of `onDrop`;
  - `buildFileTree`, as a loop (`BuildFileTree`) proved against the value
    `TreeOf`, whose cursor descent is the recursive `Descend`;
  - the file leaves of a tree, in depth-first pre-order;
  - `findFileNode`.
- `merge.dfy` (module `Merge`) holds the merge text of `processFiles` and the
  path-to-file resolution of `handleFileTreeSelect`.
- `file_tree.dfy` (module `Selection`) holds the tree widget:
  - the selection, a JavaScript `Set`, is a duplicate-free sequence in
    insertion order;
  - seeding, removing and reporting;
  - `getAllFiles` and `getFileName`;
  - the per-node component `FileTreeNode` (`Selection.FileTreeNode`), with its
    click toggle and its double-click expand flag. It is modelled as written,
    but the widget never renders it: the widget only draws the list of selected
    paths. So no user action reaches `HandleClick` or `HandleDoubleClick`.
- `page.dfy` (module `Page`) holds the page component `Home`, with its
  state fields and its transitions. It also proves lemmas about the flow as a
  whole: drop, seed, resolve, merge.

Behaviour of the code that the model keeps on purpose:

- A file leaf's `path` is the bare file name, not its relative path.
  - Two files with the same name in different folders give two leaves with
    the same path. One selection entry covers both.
  - Resolution always finds the first of them, so only that one is ever
    merged. `MergedNamesDistinct` states this: a merge never holds two files
    with the same name.
  - When all names differ, the seeded selection merges every dropped file
    exactly once (`SeededMergeTakesAll`).
- A name without a `.` is tested whole, lower-cased. So files named `C` or
  `go` pass the filter.
- Seeding adds the new tree's paths to the selection already there. It does
  not replace the selection.
- A successful drop does not clear an earlier error message.
- Every removal reports the new selection to the page. The page merges right
  away whenever a reported path resolves to a file. So removing one entry
  downloads the merge of the others.

## Model

| member | source | states |
|---|---|---|
| JsStrings.Split | src/app/page.tsx:108 | `s.split(c)` has at least one part, and no part contains the separator |
| JsStrings.JoinSplit | src/app/page.tsx:108 | joining the parts of `s.split(c)` with `c` gives `s` back |
| JsStrings.SplitJoin | src/app/page.tsx:125 | splitting the `c`-join of one or more separator-free parts gives exactly those parts |
| JsStrings.JoinWith | src/app/page.tsx:125 | `parts.join(sep)`; no contract of its own: `JoinSplit`, `SplitJoin` and `JoinWithAround` state what it returns |
| JsStrings.JoinWithAround | src/app/page.tsx:41 | a join is the earlier parts joined, a separator, part `k`, a separator and the later parts joined (no separator at either end) |
| JsStrings.LastSegment | src/app/components/FileTree.tsx:119-120 | the last part of a split holds no separator; it is a suffix of the input; the character before it is the separator; without a separator it is the whole input |
| JsStrings.LastSegmentAfter | src/app/page.tsx:89 | whatever follows the last separator is the last part |
| JsStrings.Lower | src/app/page.tsx:89 | lower-casing keeps the length and maps every character through the ASCII case fold |
| Intake.IsSupported | src/app/page.tsx:89-90 | the allow-list test; no contract of its own: `SupportedExtensions`, `SupportedByLastDot` and `SupportedWithoutDot` state when it holds |
| Intake.Extension | src/app/page.tsx:89 | the extension holds no `.`; it is a suffix of the lower-cased name; a `.` precedes it unless it is the whole name; a name without `.` is its own extension, lower-cased |
| Intake.SupportedExtensions | src/app/page.tsx:87-90 | a name passes the filter exactly when its extension is one of the 15 allow-list entries without their dot |
| Intake.ExtensionAfterLastDot | src/app/page.tsx:89 | the extension of `stem.ext` is `ext` lower-cased, whatever dots `stem` has |
| Intake.SupportedByLastDot | src/app/page.tsx:88-90 | `stem.ext` passes exactly when lower-cased `ext` is allowed; dots inside the stem are ignored |
| Intake.SupportedWithoutDot | src/app/page.tsx:89-90 | a name without `.` passes exactly when the whole name, lower-cased, is an allowed extension |
| Intake.Filter | src/app/page.tsx:88 | `filter` keeps at most as many elements as it gets; `FilterKeeps` and `FilterAppend` state which ones, and in what order |
| Intake.FilterKeeps | src/app/page.tsx:88 | an element is kept exactly when it is in the input and the test accepts it |
| Intake.FilterAppend | src/app/page.tsx:88 | filtering commutes with concatenation, so kept elements stay in their input order |
| Intake.FilterSupported | src/app/page.tsx:88-91 | the drop's filter keeps at most the dropped files; `FilterSupportedKeeps` and `FilterSupportedAppend` state which ones, and in what order |
| Intake.FilterSupportedKeeps | src/app/page.tsx:88-91 | the filter keeps exactly the dropped files whose names pass |
| Intake.FilterSupportedAppend | src/app/page.tsx:88-91 | the kept files keep their relative order |
| Intake.InputPath | src/app/page.tsx:107 | the path a file is filed under; no contract of its own: `AddFileAppendsLeaf` states where its split path puts the leaf |
| Intake.LeafFor | src/app/page.tsx:113-118 | the leaf a file becomes; no contract of its own: `LeavesForHold` states that it holds the file under its bare name, and `TreeOfLeaves` that each file gets exactly one |
| Intake.EmptyRoot | src/app/page.tsx:99-104 | the start of every build: a directory named `Root` at `/`, with no file leaves |
| Intake.Descend | src/app/page.tsx:111-132 | the cursor descent; no contract of its own: `DescendAddsOneLeaf`, `DescendWellFormed`, `DescendExtends`, `DescendAppendsLeaf` and `DescendNonEmpty` state what it does |
| Intake.AddFile | src/app/page.tsx:106-133 | filing one file keeps the root a directory with its name and path; `AddFileAddsLeaf`, `AddFileAppendsLeaf` and `TreeOfNonEmpty` state what it adds and where |
| Intake.FindDir | src/app/page.tsx:120 | the index is of the first child that is a directory with that name, or the number of children when there is none |
| Intake.TreeOf | src/app/page.tsx:99-104 | a built tree's root is a directory named `Root` with path `/` |
| Intake.BuildFileTree | src/app/page.tsx:98-136 | the loop builds `TreeOf(files)`: a `Root` directory at `/` with one leaf per file and a well-formed shape |
| Intake.FileNodes | src/app/components/FileTree.tsx:95-105 | the pre-order leaves of a node are all file nodes |
| Intake.FileNodesOfAppend | src/app/components/FileTree.tsx:100-102 | the leaves of two sibling lists are the leaves of the first, then those of the second |
| Intake.DescendAddsOneLeaf | src/app/page.tsx:111-132 | filing one file adds exactly one leaf, named after the last segment, with the bare file name as path, and removes none |
| Intake.AddFileAddsLeaf | src/app/page.tsx:106-118 | filing a file adds exactly its leaf to the tree's leaves, counted with multiplicity |
| Intake.TreeOfLeaves | src/app/page.tsx:106-118 | the leaves of a built tree are, as a multiset, one leaf per input file; nothing is deduplicated or lost |
| Intake.TreeOfLeafCount | src/app/page.tsx:106-118 | a built tree has exactly as many file leaves as input files |
| Intake.DescendWellFormed | src/app/page.tsx:119-131 | descending keeps the cursor directory's children well formed: no two directory siblings share a name, and each directory's path is its segments joined with `/` |
| Intake.TreeOfWellFormed | src/app/page.tsx:120-129 | in every built tree, directory siblings have distinct names (a file may share a directory's name), no name holds `/`, and each directory's path is the `/`-join of its segments |
| Intake.DescendExtends | src/app/page.tsx:111-132 | filing a file never moves, removes or reorders existing children; it only grows them or appends new ones |
| Intake.TreeOfExtends | src/app/page.tsx:106-133 | the tree of a prefix of the files sits unchanged, at the same positions, inside the tree of all of them |
| Intake.DescendAppendsLeaf | src/app/page.tsx:111-118 | after descending, the directory named by the segments exists, and its children are the old ones followed by the new leaf |
| Intake.DescendNonEmpty | src/app/page.tsx:119-131 | descending leaves no directory empty: each directory it creates or enters receives the new leaf |
| Intake.TreeOfNonEmpty | src/app/page.tsx:106-133 | every directory of a built tree holds at least one file leaf; with `TreeOfLeaves`, no directory exists that no file's path names |
| Intake.TreeOfPlacesLeaf | src/app/page.tsx:106-133 | in the finished tree, each dropped file's leaf is among the children of the directory its `/`-split path names |
| Intake.AddFileAppendsLeaf | src/app/page.tsx:106-118 | a file's leaf lands at the end of the children of the directory its path names |
| Intake.FirstWithPath | src/app/page.tsx:74-84 | a found node is in the list and has the queried path; nothing is found exactly when no node has it |
| Intake.FirstWithPathAppend | src/app/page.tsx:77-82 | the search of a concatenation answers from the front part when it can, otherwise from the back |
| Intake.FirstWithPathIsFirst | src/app/page.tsx:74-84 | a found node is preceded by no node with the same path |
| Intake.FirstWithPathAt | src/app/page.tsx:74-84 | a node that no earlier node shares its path with is the one found for that path |
| Intake.FindFileNode | src/app/page.tsx:74-84 | no tree finds nothing; otherwise the result is the first file leaf in pre-order with that path, and never a directory |
| Intake.FindInNode | src/app/page.tsx:76-83 | the recursive search with its early return finds the first pre-order leaf with the path |
| Merge.Separator | src/app/page.tsx:36 | the separator is 50 `=` characters |
| Merge.Header | src/app/page.tsx:36-37 | the header of one file; no contract of its own: `CombinedLayout` states where it appears |
| Merge.Block | src/app/page.tsx:37-38 | a file's header followed by its text; no contract of its own: `CombinedLayout` and `SingleFileCombined` state where it appears |
| Merge.Combined | src/app/page.tsx:32-41 | the merged text, or none; no contract of its own: `CombineFiles` states when there is text, and `CombinedLayout` its layout |
| Merge.CombineFiles | src/app/page.tsx:32-41 | the loop yields text exactly when every read succeeds, and the text is the header-plus-content blocks joined with a blank line |
| Merge.CombinedLayout | src/app/page.tsx:34-41 | file `k`'s block (separator, `File: name`, separator, blank line, text) sits between the earlier files' merge and the later files' merge, with a blank line on each side that has neighbours |
| Merge.SingleFileCombined | src/app/page.tsx:36-41 | one readable file merges to exactly its own block |
| Merge.Lookup | src/app/page.tsx:74-84 | a found node is a file leaf of the tree with the queried path |
| Merge.FileFor | src/app/page.tsx:65-66 | a path contributes at most one file, and exactly one when the lookup finds a leaf |
| Merge.Resolved | src/app/page.tsx:64-67 | resolution yields at most one file per selected path |
| Merge.ResolveSelection | src/app/page.tsx:64-67 | the mapping-and-filtering loop computes `Resolved` |
| Merge.ResolvedAppend | src/app/page.tsx:64-67 | resolution commutes with concatenation, so the files keep the selection's order and unresolved paths simply drop out |
| Merge.ResolvedAllFound | src/app/page.tsx:64-67 | when every path names a leaf, nothing is dropped, and file `k` is the one held by the first leaf with path `k` |
| Merge.ResolvedWithoutTree | src/app/page.tsx:74-75 | without a tree nothing resolves |
| Merge.ResolvedFromSelectedLeaves | src/app/page.tsx:64-67 | every resolved file is held by a leaf of the tree whose path was selected |
| Selection.Add | src/app/components/FileTree.tsx:44 | `add` puts a new member at the end and leaves a present one in place; the other members are unchanged and duplicates never appear |
| Selection.Delete | src/app/components/FileTree.tsx:109 | `delete` removes the member; the others stay; removing an absent path changes nothing; duplicates never appear |
| Selection.DeleteAt | src/app/components/FileTree.tsx:107-112 | deleting the member at `i` closes the gap and keeps the order of the rest |
| Selection.AddAll | src/app/components/FileTree.tsx:87-91 | seeding keeps the earlier members first and in place, adds exactly the new paths, and stays duplicate-free; every member after the earlier ones is a seeded path that was not selected before; `AddAllOrder` states their order |
| Selection.AddAllOrder | src/app/components/FileTree.tsx:89 | the seeded paths follow in the order of their first occurrence: a new member placed before another occurs in the seeded list before any occurrence of that other one |
| Selection.AddAllDistinct | src/app/components/FileTree.tsx:84-93 | seeding an empty selection with distinct paths selects them all, in order |
| Selection.ToggleTwiceFromAbsent | src/app/components/FileTree.tsx:39-46 | toggling an unselected path twice restores the selection exactly |
| Selection.ToggleTwiceFromPresent | src/app/components/FileTree.tsx:39-46 | toggling a selected path twice restores membership, but the path moves to the end of the order |
| Selection.GetAllFiles | src/app/components/FileTree.tsx:95-105 | one path per file leaf, in pre-order; directories contribute nothing; repeated names repeat |
| Selection.GetFileName | src/app/components/FileTree.tsx:118-121 | the result is the text after the last `/`, or the whole path when there is none; it holds no `/` |
| Selection.FileTree.constructor | src/app/components/FileTree.tsx:82 | the selection starts empty |
| Selection.FileTree.SeedFrom | src/app/components/FileTree.tsx:84-93 | a directory tree adds all its leaf paths to the current selection, which stays duplicate-free; a file node changes nothing |
| Selection.FileTree.HandleRemoveFile | src/app/components/FileTree.tsx:107-112 | the path leaves the selection, the rest keep their order, and the new selection is reported |
| Selection.FileTree.HandleMixFiles | src/app/components/FileTree.tsx:114-116 | the current selection is reported, duplicate-free and unchanged |
| Selection.FileTreeNode.constructor | src/app/components/FileTree.tsx:27 | a node starts collapsed |
| Selection.FileTreeNode.HandleDoubleClick | src/app/components/FileTree.tsx:30-35 | a double click flips a directory's expanded flag and changes nothing else; on a file it does nothing |
| Selection.FileTreeNode.HandleClick | src/app/components/FileTree.tsx:37-49 | clicking a file deletes its path if selected, appends it if not, and reports the new selection; clicking a directory changes and reports nothing |
| Page.Home.constructor | src/app/page.tsx:22-25 | not processing, no error, no tree shown or held |
| Page.Home.OnDrop | src/app/page.tsx:86-140 | with no supported file, the error is set and the tree is untouched; otherwise the tree of the kept files is held and shown, and the error is left as it was |
| Page.Home.ProcessFiles | src/app/page.tsx:28-60 | the download is the merge text, or nothing on a read failure, which sets the error; either way processing ends and the tree is cleared and hidden |
| Page.Home.HandleFileTreeSelect | src/app/page.tsx:62-72 | an empty selection, or one that resolves to no file, changes nothing; otherwise the resolved files are merged in selection order |
| Page.LeavesForHold | src/app/page.tsx:113-117 | every leaf the drop makes holds a dropped file, and its path is that file's name |
| Page.TreeLeafPaths | src/app/page.tsx:113-117 | every leaf of a built tree holds a dropped file, and its path is that file's name |
| Page.ResolvedNamesDistinct | src/app/page.tsx:64-67 | when leaf paths are file names, a duplicate-free selection resolves to files with pairwise different names |
| Page.MergedNamesDistinct | src/app/page.tsx:116 | whatever the duplicate-free selection, no merge holds two files with the same name |
| Page.LeavesForDistinct | src/app/page.tsx:116 | files with pairwise different names give pairwise different leaves |
| Page.DistinctLeafPaths | src/app/page.tsx:113-117 | with pairwise different names, the leaves of a built tree have pairwise different paths |
| Page.SeededMergeOf | src/app/components/FileTree.tsx:84-93 | for a tree holding the drop's leaves with different names, merging the seeded selection yields every dropped file, each once |
| Page.SeededMergeTakesAll | src/app/components/FileTree.tsx:84-93 | dropping files with pairwise different names, seeding, and resolving the selection gives back exactly the dropped files |
| Page.ResolvedOwnPaths | src/app/page.tsx:64-67 | when leaf paths are distinct, resolving them all gives each leaf's file, in pre-order |

## Left out

- React rendering, JSX, the hook machinery, the React keys built from
  `fullPath`, and the `useDropzone` options are not modelled. The page is
  `Home` with its state fields. A component's state is a class field.
- Mounting and unmounting are not modelled. The code discards the widget's
  selection when the tree is hidden. The model represents that as a new
  `FileTree`.
- The `onSelect` callback is not wired automatically. `HandleClick`,
  `HandleRemoveFile` and `HandleMixFiles` return the list they report. The
  caller passes that list to `Home.HandleFileTreeSelect`.
- `file.text()` is asynchronous I/O. Each file carries its read outcome
  (`ReadOutcome`), either text or a read failure. The merge runs to
  completion synchronously, as if awaited.
- Home.ProcessFiles: the short-lived `isProcessing = true` during the merge
  is set and cleared inside the call. The model only exposes the state after
  the merge.
- Home.ProcessFiles: a failure while creating the download, rather than while
  reading, is not modelled. Creating the Blob, the object URL and the anchor
  click are browser I/O. The download is the returned text.
- `console.error`, the error message texts (`ErrorMessage` only names which
  one is shown), the supported-types banner and the X link are not modelled.
- `next.config.ts` is build configuration and is not part of this model.
- Intake.BuildFileTree: the source pushes into children arrays in place and
  moves a `current` cursor into shared objects. The model rebuilds the path
  as values (`Descend`), which gives the same final tree. Aliasing between
  the cursor and the tree is not represented.
- JsStrings.Lower: case folding covers ASCII letters only, and it always
  keeps the length. Only two non-ASCII characters lower-case to ASCII
  letters: U+212A KELVIN SIGN gives `k`, and U+0130 gives `i` followed by
  U+0307, a longer string. No allowed extension contains `k` or `i`, so the
  filter's verdict is the same.

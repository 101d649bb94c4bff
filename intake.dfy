/**
 * File intake of the File Mixer page (src/app/page.tsx): the extension
 * allow-list applied to dropped files, `buildFileTree`, which turns the flat
 * list of `/`-separated relative paths into an ordered directory tree, and
 * `findFileNode`, which resolves a selection key back to a file leaf.
 *
 * The tree is a value. The builder's outer loop over the files is a method;
 * its descent with the `current` cursor is the recursive function Descend,
 * which rebuilds the path it walks instead of pushing into shared arrays.
 */
module Intake {
  import opened JsStrings

  datatype Option<T> = None | Some(value: T)

  /** What `file.text()` yields for a dropped file: its text, or a failed read. */
  datatype ReadOutcome = Text(text: string) | ReadError

  /** A dropped browser `File`: its bare name, its `webkitRelativePath` and its contents. */
  datatype SourceFile = SourceFile(name: string, webkitRelativePath: string, contents: ReadOutcome)

  /**
   * A node of the tree. A file leaf keeps the dropped file it stands for; its
   * `path` (the selection key) is the bare file name. A directory's `path`
   * is the `/`-join of the segments that lead to it.
   */
  datatype FileNode =
    | File(name: string, path: string, file: SourceFile)
    | Directory(name: string, path: string, children: seq<FileNode>)

  // ---------------------------------------------------------------------------
  // The extension allow-list of `onDrop`
  // ---------------------------------------------------------------------------

  const ValidFileTypes: seq<string> :=
    [".txt", ".md", ".json", ".js", ".ts", ".tsx", ".html", ".css",
     ".py", ".java", ".cpp", ".c", ".go", ".rb", ".php"]

  /**
   * `file.name.toLowerCase().split('.').pop() || ''`: the lower-cased text
   * after the last `.`, or the whole lower-cased name when there is no `.`.
   * (`|| ''` only maps "" to "", so it changes nothing.)
   */
  function Extension(name: string): (ext: string)
    ensures '.' !in ext
    ensures |ext| <= |name| && ext == Lower(name)[|name| - |ext|..]
    ensures |ext| < |name| ==> name[|name| - |ext| - 1] == '.'
    ensures '.' !in name ==> ext == Lower(name)
  {
    var lower := Lower(name);
    assert forall i :: 0 <= i < |name| && lower[i] == '.' ==> name[i] == '.';
    assert '.' !in name ==> '.' !in lower;
    LastSegment(lower, '.')
  }

  /** `type.slice(1)`: an entry of the list without its leading dot. */
  function DropDot(t: string): string
  {
    if |t| >= 1 then t[1..] else ""
  }

  /** `validFileTypes.some(type => type.slice(1) === extension)`. */
  predicate IsSupported(name: string)
  {
    exists t :: t in ValidFileTypes && DropDot(t) == Extension(name)
  }

  /** The allow-list without its dots. */
  const Extensions: seq<string> :=
    ["txt", "md", "json", "js", "ts", "tsx", "html", "css",
     "py", "java", "cpp", "c", "go", "rb", "php"]

  /** A file is kept exactly when its extension is one of the fifteen listed ones. */
  lemma SupportedExtensions(name: string)
    ensures IsSupported(name) <==> Extension(name) in Extensions
  {
    assert |ValidFileTypes| == |Extensions| == 15;
    forall i | 0 <= i < 15
      ensures DropDot(ValidFileTypes[i]) == Extensions[i]
    {
      assert ValidFileTypes[i] == "." + Extensions[i];
    }
    var ext := Extension(name);
    if IsSupported(name) {
      var t :| t in ValidFileTypes && DropDot(t) == ext;
      var i :| 0 <= i < 15 && ValidFileTypes[i] == t;
      assert Extensions[i] == ext;
    }
    if ext in Extensions {
      var i :| 0 <= i < 15 && Extensions[i] == ext;
      assert ValidFileTypes[i] in ValidFileTypes;
    }
  }

  /** A name with a dot: the lower-cased text after its last dot. */
  lemma ExtensionAfterLastDot(stem: string, ext: string)
    requires '.' !in ext
    ensures Extension(stem + "." + ext) == Lower(ext)
  {
    var name := stem + "." + ext;
    assert Lower(name) == Lower(stem) + "." + Lower(ext);
    assert '.' !in Lower(ext) by {
      assert forall i :: 0 <= i < |ext| ==> Lower(ext)[i] != '.';
    }
    LastSegmentAfter(Lower(stem), '.', Lower(ext));
  }

  /**
   * Only the text after the last dot counts, and case does not matter: a
   * name with a dot is kept exactly when its lower-cased last extension is
   * listed, whatever comes before (`a.c.exe` is refused, `notes.TXT` kept).
   */
  lemma SupportedByLastDot(stem: string, ext: string)
    requires '.' !in ext
    ensures IsSupported(stem + "." + ext) <==> Lower(ext) in Extensions
  {
    ExtensionAfterLastDot(stem, ext);
    SupportedExtensions(stem + "." + ext);
  }

  /** A name without a dot is tested whole, lower-cased: a file called `C` passes the filter. */
  lemma SupportedWithoutDot(name: string)
    requires '.' !in name
    ensures IsSupported(name) <==> Lower(name) in Extensions
  {
    SupportedExtensions(name);
  }

  /** `xs.filter(keep)`: the elements `keep` accepts, in their original order. */
  function Filter<T>(xs: seq<T>, keep: T -> bool): (kept: seq<T>)
    ensures |kept| <= |xs|
    decreases |xs|
  {
    if |xs| == 0 then []
    else
      var init := xs[..|xs| - 1];
      var last := xs[|xs| - 1];
      if keep(last) then Filter(init, keep) + [last] else Filter(init, keep)
  }

  /** An element is kept exactly when it was there and `keep` accepts it. */
  lemma {:induction false} FilterKeeps<T>(xs: seq<T>, keep: T -> bool)
    ensures forall x :: x in Filter(xs, keep) <==> x in xs && keep(x)
    decreases |xs|
  {
    if |xs| > 0 {
      var init := xs[..|xs| - 1];
      assert xs == init + [xs[|xs| - 1]];
      FilterKeeps(init, keep);
    }
  }

  /** Filtering commutes with concatenation: kept elements keep their relative order. */
  lemma {:induction false} FilterAppend<T>(a: seq<T>, b: seq<T>, keep: T -> bool)
    ensures Filter(a + b, keep) == Filter(a, keep) + Filter(b, keep)
    decreases |b|
  {
    if |b| == 0 {
      assert a + b == a;
    } else {
      var ab := a + b;
      assert ab[..|ab| - 1] == a + b[..|b| - 1];
      FilterAppend(a, b[..|b| - 1], keep);
    }
  }

  /** The test `onDrop` hands to `filter`: the file's name passes the allow-list. */
  predicate KeepsFile(f: SourceFile)
  {
    IsSupported(f.name)
  }

  /** `acceptedFiles.filter(...)` with the allow-list test. */
  function FilterSupported(files: seq<SourceFile>): (valid: seq<SourceFile>)
    ensures |valid| <= |files|
  {
    Filter(files, KeepsFile)
  }

  /** A file is kept exactly when it was dropped and its name passes the allow-list. */
  lemma FilterSupportedKeeps(files: seq<SourceFile>)
    ensures forall f :: f in FilterSupported(files) <==> f in files && IsSupported(f.name)
  {
    FilterKeeps(files, KeepsFile);
  }

  /** Filtering the drop commutes with concatenation: kept files keep their relative order. */
  lemma FilterSupportedAppend(a: seq<SourceFile>, b: seq<SourceFile>)
    ensures FilterSupported(a + b) == FilterSupported(a) + FilterSupported(b)
  {
    FilterAppend(a, b, KeepsFile);
  }

  // ---------------------------------------------------------------------------
  // buildFileTree
  // ---------------------------------------------------------------------------

  /** The path a dropped file is filed under: `file.webkitRelativePath || file.name`. */
  function InputPath(f: SourceFile): string
  {
    if f.webkitRelativePath != "" then f.webkitRelativePath else f.name
  }

  /** The root every build starts from. */
  function EmptyRoot(): (root: FileNode)
    ensures root.Directory? && root.name == "Root" && root.path == "/"
    ensures FileNodes(root) == []
  {
    Directory("Root", "/", [])
  }

  predicate IsDirNamed(n: FileNode, name: string)
  {
    n.Directory? && n.name == name
  }

  /**
   * `current.children.find(c => c.name === part && c.type === 'directory')`,
   * as the index of the first match, or `|children|` when there is none. A
   * file child with that name does not match.
   */
  function FindDir(children: seq<FileNode>, name: string): (i: nat)
    ensures i <= |children|
    ensures i < |children| ==> IsDirNamed(children[i], name)
    ensures forall j :: 0 <= j < i ==> !IsDirNamed(children[j], name)
    decreases |children|
  {
    if |children| == 0 then 0
    else if IsDirNamed(children[0], name) then 0
    else 1 + FindDir(children[1..], name)
  }

  /** The leaf a file becomes: its last segment as name, its bare name as path. */
  function LeafFor(f: SourceFile): FileNode
  {
    File(LastSegment(InputPath(f), '/'), f.name, f)
  }

  /**
   * The inner `parts.forEach` of `buildFileTree`, from segment `index` on,
   * applied to the children of the directory the cursor is at. A segment
   * other than the last descends into the first child directory with its
   * name, creating and appending one (path: the segments up to it joined
   * with `/`) if there is none; the last segment appends a new file leaf.
   */
  function Descend(children: seq<FileNode>, parts: seq<string>, index: nat, f: SourceFile): seq<FileNode>
    requires index < |parts|
    decreases |parts| - index
  {
    var part := parts[index];
    if index == |parts| - 1 then
      children + [File(part, f.name, f)]
    else
      var i := FindDir(children, part);
      if i < |children| then
        children[i := children[i].(children := Descend(children[i].children, parts, index + 1, f))]
      else
        children + [Directory(part, JoinWith(parts[..index + 1], "/"), Descend([], parts, index + 1, f))]
  }

  /** Filing one more file into a tree: split its path on `/` and descend from the root. */
  function AddFile(root: FileNode, f: SourceFile): (r: FileNode)
    requires root.Directory?
    ensures r.Directory? && r.name == root.name && r.path == root.path
  {
    root.(children := Descend(root.children, Split(InputPath(f), '/'), 0, f))
  }

  /** The tree `buildFileTree(files)` returns: the files filed one by one, in order. */
  function TreeOf(files: seq<SourceFile>): (root: FileNode)
    ensures root.Directory? && root.name == "Root" && root.path == "/"
    decreases |files|
  {
    if |files| == 0 then EmptyRoot()
    else AddFile(TreeOf(files[..|files| - 1]), files[|files| - 1])
  }

  /** `buildFileTree`: a loop over the files that files each one under the root. */
  method BuildFileTree(files: seq<SourceFile>) returns (root: FileNode)
    ensures root == TreeOf(files)
    ensures root.Directory? && root.name == "Root" && root.path == "/"
    ensures |FileNodes(root)| == |files|
    ensures WellFormedChildren(root.children, [])
  {
    root := EmptyRoot();
    for k := 0 to |files|
      invariant root == TreeOf(files[..k])
    {
      var file := files[k];
      var parts := Split(InputPath(file), '/');
      assert files[..k + 1][..k] == files[..k];
      root := root.(children := Descend(root.children, parts, 0, file));
    }
    assert files[..|files|] == files;
    TreeOfLeafCount(files);
    TreeOfWellFormed(files);
  }

  // ---------------------------------------------------------------------------
  // The file leaves of a tree, in depth-first pre-order
  // ---------------------------------------------------------------------------

  /** The file leaves under a node, depth first, children in their stored order. */
  function FileNodes(n: FileNode): (leaves: seq<FileNode>)
    ensures forall k :: 0 <= k < |leaves| ==> leaves[k].File?
    decreases n
  {
    match n
    case File(_, _, _) => [n]
    case Directory(_, _, children) => FileNodesOf(children)
  }

  /** The file leaves under a list of siblings, one sibling's subtree after another. */
  function FileNodesOf(nodes: seq<FileNode>): (leaves: seq<FileNode>)
    ensures forall k :: 0 <= k < |leaves| ==> leaves[k].File?
    decreases nodes
  {
    if |nodes| == 0 then []
    else FileNodesOf(nodes[..|nodes| - 1]) + FileNodes(nodes[|nodes| - 1])
  }

  lemma {:induction false} FileNodesOfAppend(a: seq<FileNode>, b: seq<FileNode>)
    ensures FileNodesOf(a + b) == FileNodesOf(a) + FileNodesOf(b)
    decreases |b|
  {
    if |b| == 0 {
      assert a + b == a;
    } else {
      var ab := a + b;
      assert ab[..|ab| - 1] == a + b[..|b| - 1];
      FileNodesOfAppend(a, b[..|b| - 1]);
    }
  }

  /** The leaf each input file becomes, in input order. */
  function LeavesFor(files: seq<SourceFile>): (leaves: seq<FileNode>)
    ensures |leaves| == |files|
    ensures forall k :: 0 <= k < |files| ==> leaves[k] == LeafFor(files[k])
  {
    seq(|files|, k requires 0 <= k < |files| => LeafFor(files[k]))
  }

  /** The leaves of a list of files are those of all but the last, then the last one's. */
  lemma LeavesForSnoc(files: seq<SourceFile>)
    requires |files| > 0
    ensures LeavesFor(files) == LeavesFor(files[..|files| - 1]) + [LeafFor(files[|files| - 1])]
  {
  }

  /** Replacing one sibling replaces its leaves and nothing else. */
  lemma FileNodesOfUpdate(nodes: seq<FileNode>, i: nat, n: FileNode)
    requires i < |nodes|
    ensures FileNodesOf(nodes[i := n]) ==
      FileNodesOf(nodes[..i]) + FileNodes(n) + FileNodesOf(nodes[i + 1..])
    ensures FileNodesOf(nodes) ==
      FileNodesOf(nodes[..i]) + FileNodes(nodes[i]) + FileNodesOf(nodes[i + 1..])
  {
    assert nodes[i := n] == nodes[..i] + [n] + nodes[i + 1..];
    assert nodes == nodes[..i] + [nodes[i]] + nodes[i + 1..];
    FileNodesOfAppend(nodes[..i] + [n], nodes[i + 1..]);
    FileNodesOfAppend(nodes[..i], [n]);
    FileNodesOfAppend(nodes[..i] + [nodes[i]], nodes[i + 1..]);
    FileNodesOfAppend(nodes[..i], [nodes[i]]);
  }

  /** Each descent adds exactly one file leaf, the one for the file being filed. */
  lemma {:induction false} DescendAddsOneLeaf(children: seq<FileNode>, parts: seq<string>, index: nat, f: SourceFile)
    requires index < |parts|
    ensures multiset(FileNodesOf(Descend(children, parts, index, f))) ==
      multiset(FileNodesOf(children)) + multiset{File(parts[|parts| - 1], f.name, f)}
    decreases |parts| - index
  {
    var part := parts[index];
    var leaf := File(parts[|parts| - 1], f.name, f);
    if index == |parts| - 1 {
      FileNodesOfAppend(children, [leaf]);
    } else {
      var i := FindDir(children, part);
      if i < |children| {
        var d := children[i];
        var inner := Descend(d.children, parts, index + 1, f);
        DescendAddsOneLeaf(d.children, parts, index + 1, f);
        FileNodesOfUpdate(children, i, d.(children := inner));
      } else {
        var inner := Descend([], parts, index + 1, f);
        DescendAddsOneLeaf([], parts, index + 1, f);
        FileNodesOfAppend(children, [Directory(part, JoinWith(parts[..index + 1], "/"), inner)]);
      }
    }
  }

  /** Filing a file into a tree adds exactly its leaf to the tree's file leaves. */
  lemma AddFileAddsLeaf(root: FileNode, f: SourceFile)
    requires root.Directory?
    ensures multiset(FileNodes(AddFile(root, f))) == multiset(FileNodes(root)) + multiset{LeafFor(f)}
  {
    var parts := Split(InputPath(f), '/');
    DescendAddsOneLeaf(root.children, parts, 0, f);
  }

  /**
   * The file leaves of a built tree are exactly one leaf per input file,
   * counted with multiplicity: nothing is deduplicated or lost.
   */
  lemma {:induction false} TreeOfLeaves(files: seq<SourceFile>)
    ensures multiset(FileNodes(TreeOf(files))) == multiset(LeavesFor(files))
    decreases |files|
  {
    if |files| > 0 {
      var init := files[..|files| - 1];
      var f := files[|files| - 1];
      TreeOfLeaves(init);
      LeavesForSnoc(files);
      var before := TreeOf(init);
      AddFileAddsLeaf(before, f);
      calc {
        multiset(FileNodes(TreeOf(files)));
        multiset(FileNodes(AddFile(before, f)));
        multiset(FileNodes(before)) + multiset{LeafFor(f)};
        multiset(LeavesFor(init)) + multiset{LeafFor(f)};
        multiset(LeavesFor(init) + [LeafFor(f)]);
      }
    }
  }

  /** A built tree has exactly as many file leaves as there were input files. */
  lemma TreeOfLeafCount(files: seq<SourceFile>)
    ensures |FileNodes(TreeOf(files))| == |files|
  {
    TreeOfLeaves(files);
    assert |multiset(FileNodes(TreeOf(files)))| == |multiset(LeavesFor(files))|;
  }

  // ---------------------------------------------------------------------------
  // Shape invariants of a built tree
  // ---------------------------------------------------------------------------

  /**
   * A node reached through the directory names `ancestors` is well formed:
   * its name holds no `/`; a directory's path is the `/`-join of the names
   * leading to it and its children are well formed.
   */
  predicate WellFormedNode(n: FileNode, ancestors: seq<string>)
    decreases n
  {
    '/' !in n.name &&
    match n
    case File(_, _, _) => true
    case Directory(name, path, children) =>
      path == JoinWith(ancestors + [name], "/") && WellFormedChildren(children, ancestors + [name])
  }

  /**
   * Siblings are well formed, and no two directory siblings share a name
   * (a file and a directory, or two files, may).
   */
  predicate WellFormedChildren(children: seq<FileNode>, ancestors: seq<string>)
    decreases children
  {
    (forall i, j :: 0 <= i < j < |children| && children[i].Directory? && children[j].Directory? ==>
       children[i].name != children[j].name) &&
    (forall i :: 0 <= i < |children| ==> WellFormedNode(children[i], ancestors))
  }

  /** Descending keeps the children of the cursor's directory well formed. */
  lemma {:induction false} DescendWellFormed(children: seq<FileNode>, parts: seq<string>, index: nat, f: SourceFile)
    requires index < |parts|
    requires forall k :: 0 <= k < |parts| ==> '/' !in parts[k]
    requires WellFormedChildren(children, parts[..index])
    ensures WellFormedChildren(Descend(children, parts, index, f), parts[..index])
    decreases |parts| - index
  {
    var part := parts[index];
    assert parts[..index] + [part] == parts[..index + 1];
    if index == |parts| - 1 {
      var r := children + [File(part, f.name, f)];
      assert forall k :: 0 <= k < |children| ==> r[k] == children[k];
    } else {
      var i := FindDir(children, part);
      if i < |children| {
        var d := children[i];
        assert WellFormedNode(d, parts[..index]);
        DescendWellFormed(d.children, parts, index + 1, f);
        var d' := d.(children := Descend(d.children, parts, index + 1, f));
        assert WellFormedNode(d', parts[..index]);
      } else {
        DescendWellFormed([], parts, index + 1, f);
        var nd := Directory(part, JoinWith(parts[..index + 1], "/"), Descend([], parts, index + 1, f));
        assert WellFormedNode(nd, parts[..index]);
        var r := children + [nd];
        assert forall k :: 0 <= k < |children| ==> r[k] == children[k];
      }
    }
  }

  /**
   * Every built tree is well formed: directory siblings have distinct names,
   * no name holds a `/`, and each directory's path is the `/`-join of the
   * segments leading to it.
   */
  lemma {:induction false} TreeOfWellFormed(files: seq<SourceFile>)
    ensures WellFormedChildren(TreeOf(files).children, [])
    decreases |files|
  {
    if |files| > 0 {
      var init := files[..|files| - 1];
      var f := files[|files| - 1];
      TreeOfWellFormed(init);
      var parts := Split(InputPath(f), '/');
      assert parts[..0] == [];
      DescendWellFormed(TreeOf(init).children, parts, 0, f);
    }
  }

  // ---------------------------------------------------------------------------
  // Order: a later file never moves, sorts or merges what an earlier one made
  // ---------------------------------------------------------------------------

  /**
   * `b` grows out of `a`: the same leaf, or the same directory whose old
   * children are still there, at the same positions, each grown, possibly
   * followed by new ones.
   */
  predicate ExtendsNode(a: FileNode, b: FileNode)
    decreases a
  {
    match a
    case File(_, _, _) => b == a
    case Directory(name, path, children) =>
      b.Directory? && b.name == name && b.path == path && ExtendsChildren(children, b.children)
  }

  predicate ExtendsChildren(before: seq<FileNode>, after: seq<FileNode>)
    decreases before
  {
    |before| <= |after| && forall i :: 0 <= i < |before| ==> ExtendsNode(before[i], after[i])
  }

  lemma {:induction false} ExtendsNodeReflexive(n: FileNode)
    ensures ExtendsNode(n, n)
    decreases n
  {
    match n
    case File(_, _, _) =>
    case Directory(_, _, children) =>
      forall i | 0 <= i < |children| ensures ExtendsNode(children[i], children[i]) {
        ExtendsNodeReflexive(children[i]);
      }
  }

  lemma {:induction false} ExtendsNodeTransitive(a: FileNode, b: FileNode, c: FileNode)
    requires ExtendsNode(a, b) && ExtendsNode(b, c)
    ensures ExtendsNode(a, c)
    decreases a
  {
    match a
    case File(_, _, _) =>
    case Directory(_, _, children) =>
      forall i | 0 <= i < |children| ensures ExtendsNode(children[i], c.children[i]) {
        ExtendsNodeTransitive(children[i], b.children[i], c.children[i]);
      }
  }

  /** Descending only appends: every existing sibling stays in place and only grows. */
  lemma {:induction false} DescendExtends(children: seq<FileNode>, parts: seq<string>, index: nat, f: SourceFile)
    requires index < |parts|
    ensures ExtendsChildren(children, Descend(children, parts, index, f))
    decreases |parts| - index
  {
    var r := Descend(children, parts, index, f);
    forall k | 0 <= k < |children| ensures ExtendsNode(children[k], children[k]) {
      ExtendsNodeReflexive(children[k]);
    }
    if index < |parts| - 1 {
      var i := FindDir(children, parts[index]);
      if i < |children| {
        DescendExtends(children[i].children, parts, index + 1, f);
        assert ExtendsNode(children[i], r[i]);
      }
    }
  }

  /**
   * A tree built from more files grows out of the tree built from a prefix
   * of them: children keep their first-seen order and are never sorted,
   * merged or removed.
   */
  lemma {:induction false} TreeOfExtends(files: seq<SourceFile>, n: nat)
    requires n <= |files|
    ensures ExtendsNode(TreeOf(files[..n]), TreeOf(files))
    decreases |files| - n
  {
    if n == |files| {
      assert files[..n] == files;
      ExtendsNodeReflexive(TreeOf(files));
    } else {
      var next := files[..n + 1];
      assert next[..n] == files[..n];
      var f := files[n];
      DescendExtends(TreeOf(files[..n]).children, Split(InputPath(f), '/'), 0, f);
      TreeOfExtends(files, n + 1);
      ExtendsNodeTransitive(TreeOf(files[..n]), TreeOf(next), TreeOf(files));
    }
  }

  // ---------------------------------------------------------------------------
  // Only named directories: every directory of a built tree holds a file
  // ---------------------------------------------------------------------------

  /** Every directory at or below `n` holds at least one file leaf. */
  predicate NonEmptyNode(n: FileNode)
    decreases n
  {
    match n
    case File(_, _, _) => true
    case Directory(_, _, children) => FileNodesOf(children) != [] && NonEmptyChildren(children)
  }

  predicate NonEmptyChildren(children: seq<FileNode>)
    decreases children
  {
    forall i :: 0 <= i < |children| ==> NonEmptyNode(children[i])
  }

  /**
   * Descending creates no directory that ends up empty: the only directories
   * it adds are those on the file's own path, and each gets the new leaf.
   */
  lemma {:induction false} DescendNonEmpty(children: seq<FileNode>, parts: seq<string>, index: nat, f: SourceFile)
    requires index < |parts|
    requires NonEmptyChildren(children)
    ensures NonEmptyChildren(Descend(children, parts, index, f))
    decreases |parts| - index
  {
    var r := Descend(children, parts, index, f);
    var leaf := File(parts[|parts| - 1], f.name, f);
    if index < |parts| - 1 {
      var i := FindDir(children, parts[index]);
      var inner := Descend(if i < |children| then children[i].children else [], parts, index + 1, f);
      DescendNonEmpty(if i < |children| then children[i].children else [], parts, index + 1, f);
      DescendAddsOneLeaf(if i < |children| then children[i].children else [], parts, index + 1, f);
      assert leaf in multiset(FileNodesOf(inner));
      assert NonEmptyNode(r[i]);
    }
  }

  /**
   * A built tree has no empty directory. With `TreeOfLeaves` this leaves no
   * room for a directory that no file's path names.
   */
  lemma {:induction false} TreeOfNonEmpty(files: seq<SourceFile>)
    ensures NonEmptyChildren(TreeOf(files).children)
    decreases |files|
  {
    if |files| > 0 {
      var init := files[..|files| - 1];
      var f := files[|files| - 1];
      TreeOfNonEmpty(init);
      DescendNonEmpty(TreeOf(init).children, Split(InputPath(f), '/'), 0, f);
    }
  }

  // ---------------------------------------------------------------------------
  // Where a new leaf goes: at the end of its directory's children
  // ---------------------------------------------------------------------------

  /**
   * The children of the directory reached from `children` by following, for
   * each name, the first child directory with that name; None when one is
   * missing.
   */
  function DirAt(children: seq<FileNode>, names: seq<string>): Option<seq<FileNode>>
    decreases |names|
  {
    if |names| == 0 then Some(children)
    else
      var i := FindDir(children, names[0]);
      if i < |children| then DirAt(children[i].children, names[1..]) else None
  }

  /** The children a directory path holds, or none when it does not exist yet. */
  function ChildrenAt(children: seq<FileNode>, names: seq<string>): seq<FileNode>
  {
    match DirAt(children, names)
    case Some(cs) => cs
    case None => []
  }

  /**
   * After descending, the directory named by the remaining segments (all but
   * the last) exists and its children are what it held before, or nothing if
   * it was just created, followed by the new leaf.
   */
  lemma {:induction false} DescendAppendsLeaf(children: seq<FileNode>, parts: seq<string>, index: nat, f: SourceFile)
    requires index < |parts|
    ensures DirAt(Descend(children, parts, index, f), parts[index..|parts| - 1]) ==
      Some(ChildrenAt(children, parts[index..|parts| - 1]) + [File(parts[|parts| - 1], f.name, f)])
    decreases |parts| - index
  {
    var names := parts[index..|parts| - 1];
    var part := parts[index];
    var r := Descend(children, parts, index, f);
    if index < |parts| - 1 {
      assert names[0] == part && names[1..] == parts[index + 1..|parts| - 1];
      var i := FindDir(children, part);
      DescendAppendsLeaf(if i < |children| then children[i].children else [], parts, index + 1, f);
      if i < |children| {
        assert forall k :: 0 <= k < i ==> r[k] == children[k];
        assert IsDirNamed(r[i], part);
        assert FindDir(r, part) == i;
      } else {
        assert forall k :: 0 <= k < |children| ==> r[k] == children[k];
        assert IsDirNamed(r[|children|], part);
        assert FindDir(r, part) == |children|;
        var rest := parts[index + 1..|parts| - 1];
        assert ChildrenAt([], rest) == [] by {
          if |rest| > 0 { assert FindDir([], rest[0]) == 0; }
        }
      }
    }
  }

  /**
   * Filing a file appends its leaf at the end of the children of the
   * directory its path names, creating that directory if it was missing.
   */
  lemma AddFileAppendsLeaf(root: FileNode, f: SourceFile)
    requires root.Directory?
    ensures var parts := Split(InputPath(f), '/');
      DirAt(AddFile(root, f).children, parts[..|parts| - 1]) ==
        Some(ChildrenAt(root.children, parts[..|parts| - 1]) + [LeafFor(f)])
  {
    var parts := Split(InputPath(f), '/');
    assert parts[0..|parts| - 1] == parts[..|parts| - 1];
    DescendAppendsLeaf(root.children, parts, 0, f);
  }

  /** A grown list still has the first directory with a name at the same index. */
  lemma FindDirExtends(a: seq<FileNode>, b: seq<FileNode>, name: string)
    requires ExtendsChildren(a, b)
    requires FindDir(a, name) < |a|
    ensures FindDir(b, name) == FindDir(a, name)
  {
    var i := FindDir(a, name);
    assert IsDirNamed(b[i], name);
    forall j | 0 <= j < i ensures !IsDirNamed(b[j], name) {
      assert !IsDirNamed(a[j], name);
    }
  }

  /** A directory path that exists before growing still exists after, and its children have grown. */
  lemma {:induction false} DirAtExtends(a: seq<FileNode>, b: seq<FileNode>, names: seq<string>)
    requires ExtendsChildren(a, b)
    requires DirAt(a, names).Some?
    ensures DirAt(b, names).Some? && ExtendsChildren(DirAt(a, names).value, DirAt(b, names).value)
    decreases |names|
  {
    if |names| > 0 {
      var i := FindDir(a, names[0]);
      FindDirExtends(a, b, names[0]);
      DirAtExtends(a[i].children, b[i].children, names[1..]);
    }
  }

  /** A file leaf in a directory stays in that directory as the tree grows. */
  lemma LeafStaysPlaced(a: seq<FileNode>, b: seq<FileNode>, names: seq<string>, leaf: FileNode)
    requires ExtendsChildren(a, b) && leaf.File?
    requires DirAt(a, names).Some? && leaf in DirAt(a, names).value
    ensures leaf in ChildrenAt(b, names)
  {
    DirAtExtends(a, b, names);
    var here, there := DirAt(a, names).value, DirAt(b, names).value;
    var j :| 0 <= j < |here| && here[j] == leaf;
    assert ExtendsNode(here[j], there[j]);
  }

  /**
   * In the finished tree, each dropped file's leaf sits among the children
   * of the directory its path names: later files never move or drop it.
   */
  lemma TreeOfPlacesLeaf(files: seq<SourceFile>, k: nat)
    requires k < |files|
    ensures var parts := Split(InputPath(files[k]), '/');
      LeafFor(files[k]) in ChildrenAt(TreeOf(files).children, parts[..|parts| - 1])
  {
    var f := files[k];
    var parts := Split(InputPath(f), '/');
    var names := parts[..|parts| - 1];
    var before, grown := TreeOf(files[..k]), TreeOf(files[..k + 1]);
    assert grown == AddFile(before, f) by {
      assert files[..k + 1][..k] == files[..k];
    }
    AddFileAppendsLeaf(before, f);
    TreeOfExtends(files, k + 1);
    LeafStaysPlaced(grown.children, TreeOf(files).children, names, LeafFor(f));
  }

  // ---------------------------------------------------------------------------
  // findFileNode
  // ---------------------------------------------------------------------------

  /** The first node of a list whose path is `path`. */
  function FirstWithPath(nodes: seq<FileNode>, path: string): (found: Option<FileNode>)
    ensures found.Some? ==> found.value in nodes && found.value.path == path
    ensures found.None? <==> forall k :: 0 <= k < |nodes| ==> nodes[k].path != path
    decreases |nodes|
  {
    if |nodes| == 0 then None
    else if nodes[0].path == path then Some(nodes[0])
    else
      assert forall k :: 1 <= k < |nodes| ==> nodes[k] == nodes[1..][k - 1];
      FirstWithPath(nodes[1..], path)
  }

  /** The first match in a concatenation is the first match in the front part, if any. */
  lemma {:induction false} FirstWithPathAppend(a: seq<FileNode>, b: seq<FileNode>, path: string)
    ensures FirstWithPath(a + b, path) ==
      if FirstWithPath(a, path).Some? then FirstWithPath(a, path) else FirstWithPath(b, path)
    decreases |a|
  {
    if |a| > 0 {
      assert (a + b)[1..] == a[1..] + b;
      FirstWithPathAppend(a[1..], b, path);
    } else {
      assert a + b == b;
    }
  }

  /** The match found is the earliest: no node before it has that path. */
  lemma {:induction false} FirstWithPathIsFirst(nodes: seq<FileNode>, path: string)
    requires FirstWithPath(nodes, path).Some?
    ensures exists k :: 0 <= k < |nodes| && nodes[k] == FirstWithPath(nodes, path).value &&
                        (forall j :: 0 <= j < k ==> nodes[j].path != path)
    decreases |nodes|
  {
    if nodes[0].path != path {
      FirstWithPathIsFirst(nodes[1..], path);
      var k :| 0 <= k < |nodes[1..]| && nodes[1..][k] == FirstWithPath(nodes[1..], path).value &&
               (forall j :: 0 <= j < k ==> nodes[1..][j].path != path);
      assert nodes[k + 1] == FirstWithPath(nodes, path).value;
    } else {
      assert nodes[0] == FirstWithPath(nodes, path).value;
    }
  }

  /** When no earlier node has node `k`'s path, node `k` is the one found for it. */
  lemma {:induction false} FirstWithPathAt(nodes: seq<FileNode>, k: nat)
    requires k < |nodes|
    requires forall j :: 0 <= j < k ==> nodes[j].path != nodes[k].path
    ensures FirstWithPath(nodes, nodes[k].path) == Some(nodes[k])
    decreases k
  {
    if k > 0 {
      FirstWithPathAt(nodes[1..], k - 1);
    }
  }

  /**
   * `findFileNode(node, path)`: null for a null tree; otherwise the first
   * file leaf, in depth-first pre-order, whose path is `path`, or null.
   */
  method FindFileNode(node: Option<FileNode>, path: string) returns (found: Option<FileNode>)
    ensures node.None? ==> found.None?
    ensures node.Some? ==> found == FirstWithPath(FileNodes(node.value), path)
    ensures found.Some? ==> found.value.File? && found.value.path == path
  {
    if node.None? {
      return None;
    }
    found := FindInNode(node.value, path);
  }

  /** The search below a present node: check the node, then each child in order. */
  method FindInNode(node: FileNode, path: string) returns (found: Option<FileNode>)
    ensures found == FirstWithPath(FileNodes(node), path)
    decreases node
  {
    if node.File? && node.path == path {
      return Some(node);
    }
    if node.Directory? {
      var children := node.children;
      for i := 0 to |children|
        invariant FirstWithPath(FileNodesOf(children[..i]), path) == None
      {
        var r := FindInNode(children[i], path);
        assert children[..i + 1][..i] == children[..i];
        FirstWithPathAppend(FileNodesOf(children[..i]), FileNodes(children[i]), path);
        if r.Some? {
          assert children[..i + 1] + children[i + 1..] == children;
          FileNodesOfAppend(children[..i + 1], children[i + 1..]);
          FirstWithPathAppend(FileNodesOf(children[..i + 1]), FileNodesOf(children[i + 1..]), path);
          return r;
        }
      }
      assert children[..|children|] == children;
    }
    return None;
  }
}

/**
 * The merge step of the File Mixer page (src/app/page.tsx): resolving the
 * reported selection back to dropped files (`handleFileTreeSelect`) and the
 * text `processFiles` builds from them, one header block per file, blocks
 * separated by a blank line. Reading a file may fail, which aborts the whole
 * merge.
 */
module Merge {
  import opened JsStrings
  import opened Intake

  /** `'='.repeat(50)`. */
  function Separator(): (sep: string)
    ensures |sep| == 50
    ensures forall i :: 0 <= i < |sep| ==> sep[i] == '='
  {
    seq(50, _ => '=')
  }

  /** The header written before a file's text. */
  function Header(name: string): string
  {
    Separator() + "\nFile: " + name + "\n" + Separator() + "\n\n"
  }

  /** The block a file contributes to the combined text. */
  function Block(name: string, text: string): string
  {
    Header(name) + text
  }

  /** What goes between two blocks: `textContents.join('\n\n')`. */
  const BlockGap: string := "\n\n"

  predicate AllReadable(files: seq<SourceFile>)
  {
    forall k :: 0 <= k < |files| ==> files[k].contents.Text?
  }

  /** The blocks of files whose reads all succeed, in file order. */
  function Blocks(files: seq<SourceFile>): (blocks: seq<string>)
    requires AllReadable(files)
    ensures |blocks| == |files|
    ensures forall k :: 0 <= k < |files| ==> blocks[k] == Block(files[k].name, files[k].contents.text)
  {
    seq(|files|, k requires 0 <= k < |files| => Block(files[k].name, files[k].contents.text))
  }

  /** The text `processFiles` downloads, or None when some read fails. */
  function Combined(files: seq<SourceFile>): Option<string>
  {
    if AllReadable(files) then Some(JoinWith(Blocks(files), BlockGap)) else None
  }

  /**
   * The loop of `processFiles`: read each file in turn, stop at the first
   * failed read, otherwise collect header plus text; then join the blocks
   * with a blank line.
   */
  method CombineFiles(files: seq<SourceFile>) returns (combined: Option<string>)
    ensures combined.Some? <==> AllReadable(files)
    ensures combined.Some? ==> combined.value == JoinWith(Blocks(files), BlockGap)
  {
    var textContents: seq<string> := [];
    for k := 0 to |files|
      invariant AllReadable(files[..k])
      invariant textContents == Blocks(files[..k])
    {
      var file := files[k];
      match file.contents {
        case ReadError =>
          return None;
        case Text(text) =>
          assert files[..k + 1] == files[..k] + [file];
          textContents := textContents + [Header(file.name) + text];
      }
    }
    assert files[..|files|] == files;
    return Some(JoinWith(textContents, BlockGap));
  }

  /**
   * Where each file lands in the combined text: file `k`'s block (separator
   * line, `File: name`, separator line, blank line, text) comes after the
   * earlier files' merge and a blank line, and before a blank line and the
   * later files' merge; the first has nothing before it, the last nothing
   * after it.
   */
  lemma CombinedLayout(files: seq<SourceFile>, k: nat)
    requires AllReadable(files) && k < |files|
    ensures Combined(files).Some?
    ensures Combined(files).value ==
      (if k == 0 then "" else Combined(files[..k]).value + "\n\n") +
      Block(files[k].name, files[k].contents.text) +
      (if k == |files| - 1 then "" else "\n\n" + Combined(files[k + 1..]).value)
  {
    var blocks := Blocks(files);
    JoinWithAround(blocks, BlockGap, k);
    assert Blocks(files[..k]) == blocks[..k];
    assert Blocks(files[k + 1..]) == blocks[k + 1..];
  }

  /** A single readable file merges to exactly its own block. */
  lemma SingleFileCombined(f: SourceFile)
    requires f.contents.Text?
    ensures Combined([f]) == Some(Block(f.name, f.contents.text))
  {
    assert Blocks([f]) == [Block(f.name, f.contents.text)];
  }

  // ---------------------------------------------------------------------------
  // Resolving the selection (`handleFileTreeSelect`)
  // ---------------------------------------------------------------------------

  /** `findFileNode(tree, path)`, as a function. */
  function Lookup(tree: Option<FileNode>, path: string): (found: Option<FileNode>)
    ensures found.Some? ==> found.value.File? && found.value.path == path
    ensures found.Some? ==> tree.Some? && found.value in FileNodes(tree.value)
  {
    if tree.None? then None else FirstWithPath(FileNodes(tree.value), path)
  }

  /** `findFileNode(tree, path)?.file`, kept only when it is a file: zero or one files. */
  function FileFor(tree: Option<FileNode>, path: string): (files: seq<SourceFile>)
    ensures |files| <= 1
    ensures |files| == 1 <==> Lookup(tree, path).Some?
  {
    match Lookup(tree, path)
    case Some(leaf) => [leaf.file]
    case None => []
  }

  /**
   * `selectedFiles.map(path => findFileNode(tree, path)?.file).filter(...)`:
   * the file of each path's first leaf, in selection order; paths with no
   * leaf are dropped.
   */
  function Resolved(tree: Option<FileNode>, paths: seq<string>): (files: seq<SourceFile>)
    ensures |files| <= |paths|
    decreases |paths|
  {
    if |paths| == 0 then []
    else Resolved(tree, paths[..|paths| - 1]) + FileFor(tree, paths[|paths| - 1])
  }

  /** The resolution loop: one lookup per selected path, keeping the files found. */
  method ResolveSelection(tree: Option<FileNode>, selectedFiles: seq<string>) returns (files: seq<SourceFile>)
    ensures files == Resolved(tree, selectedFiles)
  {
    files := [];
    for k := 0 to |selectedFiles|
      invariant files == Resolved(tree, selectedFiles[..k])
    {
      var node := FindFileNode(tree, selectedFiles[k]);
      assert selectedFiles[..k + 1][..k] == selectedFiles[..k];
      if node.Some? {
        files := files + [node.value.file];
      }
    }
    assert selectedFiles[..|selectedFiles|] == selectedFiles;
  }

  /** Resolving one more path appends that path's file, if it has one. */
  lemma ResolvedSnoc(tree: Option<FileNode>, s: seq<string>, x: string)
    ensures Resolved(tree, s + [x]) == Resolved(tree, s) + FileFor(tree, x)
  {
    assert (s + [x])[..|s|] == s;
  }

  /** Resolution keeps the selection's order: it commutes with concatenation. */
  lemma {:induction false} ResolvedAppend(tree: Option<FileNode>, a: seq<string>, b: seq<string>)
    ensures Resolved(tree, a + b) == Resolved(tree, a) + Resolved(tree, b)
    decreases |b|
  {
    if |b| == 0 {
      assert a + b == a;
    } else {
      var init, last := b[..|b| - 1], b[|b| - 1];
      assert b == init + [last];
      assert a + b == (a + init) + [last];
      var ra, ri, rl := Resolved(tree, a), Resolved(tree, init), FileFor(tree, last);
      calc {
        Resolved(tree, a + b);
        { ResolvedSnoc(tree, a + init, last); }
        Resolved(tree, a + init) + rl;
        { ResolvedAppend(tree, a, init); }
        (ra + ri) + rl;
        ra + (ri + rl);
        { ResolvedSnoc(tree, init, last); }
        ra + Resolved(tree, b);
      }
    }
  }

  /**
   * When every selected path names a leaf, nothing is dropped and the k-th
   * file is the one held by the first leaf with the k-th path.
   */
  lemma {:induction false} ResolvedAllFound(tree: Option<FileNode>, paths: seq<string>)
    requires forall k :: 0 <= k < |paths| ==> Lookup(tree, paths[k]).Some?
    ensures |Resolved(tree, paths)| == |paths|
    ensures forall k :: 0 <= k < |paths| ==> Resolved(tree, paths)[k] == Lookup(tree, paths[k]).value.file
    decreases |paths|
  {
    if |paths| > 0 {
      var init := paths[..|paths| - 1];
      assert forall k :: 0 <= k < |init| ==> init[k] == paths[k];
      ResolvedAllFound(tree, init);
    }
  }

  /** Without a tree nothing resolves. */
  lemma {:induction false} ResolvedWithoutTree(paths: seq<string>)
    ensures Resolved(None, paths) == []
    decreases |paths|
  {
    if |paths| > 0 {
      ResolvedWithoutTree(paths[..|paths| - 1]);
    }
  }

  /** Every resolved file is held by a leaf of the tree whose path was selected. */
  lemma {:induction false} ResolvedFromSelectedLeaves(tree: Option<FileNode>, paths: seq<string>, f: SourceFile)
    requires f in Resolved(tree, paths)
    ensures tree.Some?
    ensures exists leaf :: leaf in FileNodes(tree.value) && leaf.file == f && leaf.path in paths
    decreases |paths|
  {
    var init := paths[..|paths| - 1];
    var last := paths[|paths| - 1];
    assert Resolved(tree, paths) == Resolved(tree, init) + FileFor(tree, last);
    if f in Resolved(tree, init) {
      ResolvedFromSelectedLeaves(tree, init, f);
      var leaf :| leaf in FileNodes(tree.value) && leaf.file == f && leaf.path in init;
      assert leaf.path in paths;
    } else {
      var leaf := Lookup(tree, last).value;
      assert leaf.file == f && leaf.path in paths;
    }
  }
}

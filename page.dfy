/**
 * The state of the File Mixer page (src/app/page.tsx) and its transitions:
 * dropping files, resolving a reported selection, and merging. The download
 * itself is the merged text a transition returns.
 */
module Page {
  import opened Intake
  import opened Merge
  import opened Selection

  /** Which message the page shows; the texts themselves are not modelled. */
  datatype ErrorMessage = NoError | UnsupportedFiles | ProcessingFailed

  /** The `Home` component's state. */
  class Home {
    var isProcessing: bool
    var error: ErrorMessage
    var showFileTree: bool
    var fileTreeData: Option<FileNode>

    constructor ()
      ensures !isProcessing && error == NoError && !showFileTree && fileTreeData == None
    {
      isProcessing := false;
      error := NoError;
      showFileTree := false;
      fileTreeData := None;
    }

    /**
     * `onDrop`: keep the supported files; with none left, show the error and
     * keep the tree as it was; otherwise build and show the tree of the kept
     * files. A successful drop does not clear an earlier error.
     */
    method OnDrop(acceptedFiles: seq<SourceFile>)
      modifies this
      ensures isProcessing == old(isProcessing)
      ensures FilterSupported(acceptedFiles) == [] ==>
        error == UnsupportedFiles && fileTreeData == old(fileTreeData) && showFileTree == old(showFileTree)
      ensures FilterSupported(acceptedFiles) != [] ==>
        error == old(error) && showFileTree &&
        fileTreeData == Some(TreeOf(FilterSupported(acceptedFiles)))
    {
      var validFiles := FilterSupported(acceptedFiles);
      if validFiles == [] {
        error := UnsupportedFiles;
        return;
      }
      var tree := BuildFileTree(validFiles);
      fileTreeData := Some(tree);
      showFileTree := true;
    }

    /**
     * `processFiles`: merge the files; a failed read shows the error and
     * downloads nothing. Either way processing ends and the tree is cleared.
     */
    method ProcessFiles(files: seq<SourceFile>) returns (download: Option<string>)
      modifies this
      ensures !isProcessing && !showFileTree && fileTreeData == None
      ensures download == Combined(files)
      ensures error == if AllReadable(files) then NoError else ProcessingFailed
    {
      isProcessing := true;
      error := NoError;
      download := CombineFiles(files);
      if download.None? {
        error := ProcessingFailed;
      }
      isProcessing := false;
      showFileTree := false;
      fileTreeData := None;
    }

    /**
     * `handleFileTreeSelect`: an empty selection does nothing; otherwise the
     * selected paths are resolved against the current tree, and if any file
     * is found they are merged, in selection order.
     */
    method HandleFileTreeSelect(selectedFiles: seq<string>) returns (download: Option<string>)
      modifies this
      ensures var files := Resolved(old(fileTreeData), selectedFiles);
        if selectedFiles == [] || files == [] then
          download == None &&
          isProcessing == old(isProcessing) && error == old(error) &&
          showFileTree == old(showFileTree) && fileTreeData == old(fileTreeData)
        else
          download == Combined(files) &&
          !isProcessing && !showFileTree && fileTreeData == None &&
          error == (if AllReadable(files) then NoError else ProcessingFailed)
    {
      if |selectedFiles| == 0 {
        return None;
      }
      var selectedFileObjects := ResolveSelection(fileTreeData, selectedFiles);
      if |selectedFileObjects| > 0 {
        download := ProcessFiles(selectedFileObjects);
      } else {
        download := None;
      }
    }
  }

  // ---------------------------------------------------------------------------
  // The drop-seed-merge flow as a whole
  // ---------------------------------------------------------------------------

  /** Sequences with the same multiset have the same members. */
  lemma SameMultisetMember<T>(a: seq<T>, b: seq<T>, x: T)
    requires multiset(a) == multiset(b) && x in a
    ensures x in b
  {
    assert x in multiset(a);
  }

  /** No two files have the same name. */
  predicate DistinctNames(files: seq<SourceFile>)
  {
    forall i, j :: 0 <= i < j < |files| ==> files[i].name != files[j].name
  }

  /** Each leaf holds a dropped file, and its path is that file's bare name. */
  predicate HoldOwnFiles(leaves: seq<FileNode>, files: seq<SourceFile>)
  {
    forall leaf :: leaf in leaves ==> leaf.File? && leaf.path == leaf.file.name && leaf.file in files
  }

  /** The leaves the drop makes hold their own files. */
  lemma LeavesForHold(leaves: seq<FileNode>, files: seq<SourceFile>)
    requires multiset(leaves) == multiset(LeavesFor(files))
    ensures HoldOwnFiles(leaves, files)
  {
    var leavesFor := LeavesFor(files);
    forall leaf | leaf in leaves
      ensures leaf.File? && leaf.path == leaf.file.name && leaf.file in files
    {
      SameMultisetMember(leaves, leavesFor, leaf);
      var k :| 0 <= k < |leavesFor| && leavesFor[k] == leaf;
      assert leaf == LeafFor(files[k]);
    }
  }

  /** Every leaf of a built tree holds a dropped file, and its path is that file's bare name. */
  lemma TreeLeafPaths(files: seq<SourceFile>)
    ensures HoldOwnFiles(FileNodes(TreeOf(files)), files)
  {
    TreeOfLeaves(files);
    LeavesForHold(FileNodes(TreeOf(files)), files);
  }

  /**
   * Files that share a name cannot be merged together: in a tree whose leaf
   * paths are their files' names, the files any duplicate-free selection
   * resolves to have pairwise different names.
   */
  lemma {:induction false} ResolvedNamesDistinct(tree: FileNode, files: seq<SourceFile>, selected: seq<string>)
    requires HoldOwnFiles(FileNodes(tree), files)
    requires NoDup(selected)
    ensures DistinctNames(Resolved(Some(tree), selected))
    decreases |selected|
  {
    if |selected| > 0 {
      var init, last := selected[..|selected| - 1], selected[|selected| - 1];
      assert NoDup(init);
      assert last !in init;
      ResolvedNamesDistinct(tree, files, init);
      var before := Resolved(Some(tree), init);
      assert DistinctNames(before);
      var merged := Resolved(Some(tree), selected);
      assert merged == before + FileFor(Some(tree), last);
      forall i | 0 <= i < |before|
        ensures before[i].name in init
      {
        assert before[i] in before;
        ResolvedFromSelectedLeaves(Some(tree), init, before[i]);
        var l :| l in FileNodes(tree) && l.file == before[i] && l.path in init;
        assert l.path == before[i].name;
      }
      forall i, j | 0 <= i < j < |merged|
        ensures merged[i].name != merged[j].name
      {
        assert merged[i] == before[i];
        if j < |before| {
          assert merged[j] == before[j];
          assert before[i].name != before[j].name;
        } else {
          var leaf := Lookup(Some(tree), last).value;
          assert leaf in FileNodes(tree);
          assert merged[j] == leaf.file && leaf.file.name == last;
        }
      }
    }
  }

  /**
   * Files that share a name cannot be merged together: whatever the
   * duplicate-free selection, the files it resolves to in the built tree
   * have pairwise different names.
   */
  lemma MergedNamesDistinct(files: seq<SourceFile>, selected: seq<string>)
    requires NoDup(selected)
    ensures DistinctNames(Resolved(Some(TreeOf(files)), selected))
  {
    TreeLeafPaths(files);
    ResolvedNamesDistinct(TreeOf(files), files, selected);
  }

  /** An element counted at most once differs from every element before it. */
  lemma CountedOnce<T>(s: seq<T>, j: nat, k: nat)
    requires j < k < |s| && multiset(s)[s[k]] <= 1
    ensures s[j] != s[k]
  {
    assert s == s[..k] + [s[k]] + s[k + 1..];
    assert multiset(s[..k])[s[k]] == 0;
    assert s[j] in s[..k];
  }

  /** In a sequence without repeats, every value is counted at most once. */
  lemma {:induction false} DistinctCountsOnce<T>(s: seq<T>, x: T)
    requires forall i, j :: 0 <= i < j < |s| ==> s[i] != s[j]
    ensures multiset(s)[x] <= 1
    decreases |s|
  {
    if |s| > 0 {
      var init := s[..|s| - 1];
      DistinctCountsOnce(init, x);
      assert s == init + [s[|s| - 1]];
      assert s[|s| - 1] !in init;
    }
  }

  /** With pairwise different names, the leaves the drop makes are pairwise different. */
  lemma LeavesForDistinct(files: seq<SourceFile>)
    requires DistinctNames(files)
    ensures var leaves := LeavesFor(files);
      forall i, j :: 0 <= i < j < |leaves| ==> leaves[i] != leaves[j]
  {
    var leaves := LeavesFor(files);
    forall i, j | 0 <= i < j < |leaves|
      ensures leaves[i] != leaves[j]
    {
      assert leaves[i].path == files[i].name && leaves[j].path == files[j].name;
    }
  }

  /** A reordering of a sequence without repeats has no repeats either. */
  lemma SameMultisetDistinct<T>(a: seq<T>, b: seq<T>)
    requires multiset(a) == multiset(b)
    requires forall i, j :: 0 <= i < j < |b| ==> b[i] != b[j]
    ensures forall i, j :: 0 <= i < j < |a| ==> a[i] != a[j]
  {
    forall i, j | 0 <= i < j < |a|
      ensures a[i] != a[j]
    {
      DistinctCountsOnce(b, a[j]);
      CountedOnce(a, i, j);
    }
  }

  /** With pairwise different names, the leaves the drop makes have pairwise different paths. */
  lemma DistinctLeafPaths(leaves: seq<FileNode>, files: seq<SourceFile>)
    requires multiset(leaves) == multiset(LeavesFor(files))
    requires DistinctNames(files)
    ensures NoDup(Paths(leaves))
  {
    var paths := Paths(leaves);
    var leavesFor := LeavesFor(files);
    LeavesForDistinct(files);
    SameMultisetDistinct(leaves, leavesFor);
    forall j, k | 0 <= j < k < |paths|
      ensures paths[j] != paths[k]
    {
      SameMultisetMember(leaves, leavesFor, leaves[j]);
      SameMultisetMember(leaves, leavesFor, leaves[k]);
      var m :| 0 <= m < |files| && leavesFor[m] == leaves[j];
      var n :| 0 <= n < |files| && leavesFor[n] == leaves[k];
      assert leaves[j] != leaves[k];
      assert paths[j] == files[m].name && paths[k] == files[n].name;
    }
  }

  /**
   * The seeded merge of a tree whose leaves are those the drop makes, with
   * pairwise different names: every dropped file, each once.
   */
  lemma SeededMergeOf(tree: FileNode, files: seq<SourceFile>)
    requires multiset(FileNodes(tree)) == multiset(LeavesFor(files))
    requires DistinctNames(files)
    ensures var merged := Resolved(Some(tree), AddAll([], Paths(FileNodes(tree))));
      |merged| == |files| && forall f :: f in merged <==> f in files
  {
    var leaves := FileNodes(tree);
    DistinctLeafPaths(leaves, files);
    AddAllDistinct(Paths(leaves));
    LeafPathsResolve(tree, files);
  }

  /** Resolving every leaf path of such a tree gives back the drop, each file once. */
  lemma LeafPathsResolve(tree: FileNode, files: seq<SourceFile>)
    requires multiset(FileNodes(tree)) == multiset(LeavesFor(files))
    requires NoDup(Paths(FileNodes(tree)))
    ensures var merged := Resolved(Some(tree), Paths(FileNodes(tree)));
      |merged| == |files| && forall f :: f in merged <==> f in files
  {
    var leaves := FileNodes(tree);
    assert |leaves| == |files| by {
      assert |multiset(leaves)| == |multiset(LeavesFor(files))|;
    }
    ResolvedOwnPaths(tree);
    ResolvedWithinDrop(tree, files);
    DropWithinResolved(tree, files);
  }

  lemma ResolvedWithinDrop(tree: FileNode, files: seq<SourceFile>)
    requires multiset(FileNodes(tree)) == multiset(LeavesFor(files))
    requires NoDup(Paths(FileNodes(tree)))
    ensures forall f :: f in Resolved(Some(tree), Paths(FileNodes(tree))) ==> f in files
  {
    var leaves := FileNodes(tree);
    ResolvedOwnPaths(tree);
    var merged := Resolved(Some(tree), Paths(leaves));
    LeavesForHold(leaves, files);
    forall f | f in merged
      ensures f in files
    {
      var k :| 0 <= k < |merged| && merged[k] == f;
      assert leaves[k] in leaves;
    }
  }

  lemma DropWithinResolved(tree: FileNode, files: seq<SourceFile>)
    requires multiset(FileNodes(tree)) == multiset(LeavesFor(files))
    requires NoDup(Paths(FileNodes(tree)))
    ensures forall f :: f in files ==> f in Resolved(Some(tree), Paths(FileNodes(tree)))
  {
    var leaves := FileNodes(tree);
    ResolvedOwnPaths(tree);
    var merged := Resolved(Some(tree), Paths(leaves));
    EveryFileHasLeaf(leaves, files);
    forall f | f in files
      ensures f in merged
    {
      var k :| 0 <= k < |leaves| && leaves[k] == LeafFor(f);
      assert merged[k] == f;
    }
  }

  /** Every dropped file has its leaf among leaves that are a reordering of the drop's. */
  lemma EveryFileHasLeaf(leaves: seq<FileNode>, files: seq<SourceFile>)
    requires multiset(leaves) == multiset(LeavesFor(files))
    ensures forall f :: f in files ==> LeafFor(f) in leaves
  {
    forall f | f in files
      ensures LeafFor(f) in leaves
    {
      var a :| 0 <= a < |files| && files[a] == f;
      assert LeavesFor(files)[a] == LeafFor(f);
      SameMultisetMember(LeavesFor(files), leaves, LeafFor(f));
    }
  }

  /**
   * With pairwise different names, the seeded selection merges every
   * dropped file exactly once: all leaf paths differ, so seeding selects
   * each of them, and each resolves to its own leaf.
   */
  lemma SeededMergeTakesAll(files: seq<SourceFile>)
    requires DistinctNames(files)
    ensures var tree := TreeOf(files);
      var merged := Resolved(Some(tree), AddAll([], Paths(FileNodes(tree))));
      |merged| == |files| && forall f :: f in merged <==> f in files
  {
    TreeOfLeaves(files);
    SeededMergeOf(TreeOf(files), files);
  }

  /**
   * When the leaves of a tree have distinct paths, the seeded selection
   * resolves to every leaf's file, in pre-order.
   */
  lemma ResolvedOwnPaths(tree: FileNode)
    requires NoDup(Paths(FileNodes(tree)))
    ensures var leaves := FileNodes(tree);
      var files := Resolved(Some(tree), Paths(leaves));
      |files| == |leaves| && forall k :: 0 <= k < |leaves| ==> files[k] == leaves[k].file
  {
    var leaves := FileNodes(tree);
    var paths := Paths(leaves);
    forall k | 0 <= k < |paths|
      ensures Lookup(Some(tree), paths[k]) == Some(leaves[k])
    {
      assert forall j :: 0 <= j < k ==> paths[j] != paths[k];
      FirstWithPathAt(leaves, k);
    }
    ResolvedAllFound(Some(tree), paths);
  }
}

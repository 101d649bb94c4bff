/**
 * The selection model of the file tree widget (src/app/components/FileTree.tsx).
 *
 * The widget keeps the selected leaf paths in a JavaScript `Set`, which
 * iterates in insertion order; here that is a duplicate-free sequence.
 * Selecting is keyed by a leaf's `path`, which is the bare file name, so two
 * leaves with the same name share one selection entry.
 */
module Selection {
  import opened JsStrings
  import opened Intake

  predicate NoDup(s: seq<string>)
  {
    forall i, j :: 0 <= i < j < |s| ==> s[i] != s[j]
  }

  // ---------------------------------------------------------------------------
  // The insertion-ordered set
  // ---------------------------------------------------------------------------

  /** `set.add(x)`: a new member goes to the end; a present one stays where it is. */
  function Add(s: seq<string>, x: string): (r: seq<string>)
    ensures x in r && forall y :: y != x ==> (y in r <==> y in s)
    ensures NoDup(s) ==> NoDup(r)
    ensures x in s ==> r == s
    ensures x !in s ==> r == s + [x]
  {
    if x in s then s else s + [x]
  }

  /** `set.delete(x)`: `x` leaves the set; every other member keeps its place. */
  function Delete(s: seq<string>, x: string): (r: seq<string>)
    ensures x !in r
    ensures forall y :: y != x ==> (y in r <==> y in s)
    ensures x !in s ==> r == s
    ensures NoDup(s) ==> NoDup(r)
    decreases |s|
  {
    if |s| == 0 then []
    else
      var init := s[..|s| - 1];
      var last := s[|s| - 1];
      assert s == init + [last];
      assert NoDup(s) ==> last !in init;
      if last == x then Delete(init, x) else Delete(init, x) + [last]
  }

  /** In a duplicate-free set, deleting the member at `i` closes the gap and changes nothing else. */
  lemma {:induction false} DeleteAt(s: seq<string>, i: nat)
    requires NoDup(s) && i < |s|
    ensures Delete(s, s[i]) == s[..i] + s[i + 1..]
    decreases |s|
  {
    var init := s[..|s| - 1];
    var last := s[|s| - 1];
    if i == |s| - 1 {
      assert s[i] !in init;
      assert s[..i] + s[i + 1..] == init;
    } else {
      assert last != s[i];
      DeleteAt(init, i);
      assert init[..i] == s[..i];
      assert init[i + 1..] + [last] == s[i + 1..];
    }
  }

  /**
   * The seeding loop `files.forEach(file => newFiles.add(file))`: the members
   * already there stay first, in place; after them come only paths that were
   * not there before.
   */
  function AddAll(s: seq<string>, xs: seq<string>): (r: seq<string>)
    ensures |s| <= |r| && r[..|s|] == s
    ensures forall k :: |s| <= k < |r| ==> r[k] in xs && r[k] !in s
    ensures forall y :: y in r <==> y in s || y in xs
    ensures NoDup(s) ==> NoDup(r)
    decreases |xs|
  {
    if |xs| == 0 then s
    else
      var init := xs[..|xs| - 1];
      assert xs == init + [xs[|xs| - 1]];
      Add(AddAll(s, init), xs[|xs| - 1])
  }

  /**
   * The seeded paths follow in the order of their first occurrence: a new
   * member placed before the one at `j` occurs in `xs` before any occurrence
   * of the member at `j`.
   */
  lemma {:induction false} AddAllOrder(s: seq<string>, xs: seq<string>, i: nat, j: nat, b: nat)
    requires |s| <= i < j < |AddAll(s, xs)|
    requires b < |xs| && xs[b] == AddAll(s, xs)[j]
    ensures AddAll(s, xs)[i] in xs[..b]
    decreases |xs|
  {
    var init, x := xs[..|xs| - 1], xs[|xs| - 1];
    assert xs == init + [x];
    var p := AddAll(s, init);
    var r := AddAll(s, xs);
    assert r == Add(p, x);
    if x in p {
      if b < |init| {
        AddAllOrder(s, init, i, j, b);
        assert init[..b] == xs[..b];
      } else {
        assert p[j] in init;
        var c :| 0 <= c < |init| && init[c] == p[j];
        AddAllOrder(s, init, i, j, c);
        var k :| 0 <= k < c && init[..c][k] == p[i];
        assert xs[..b][k] == p[i];
      }
    } else {
      assert x !in init;
      if j < |p| {
        assert xs[b] == p[j] && p[j] != x;
        AddAllOrder(s, init, i, j, b);
        assert init[..b] == xs[..b];
      } else {
        assert xs[b] == x;
        assert xs[..b] == init;
      }
    }
  }

  /** Seeding an empty selection with distinct paths selects them all, in order. */
  lemma {:induction false} AddAllDistinct(xs: seq<string>)
    requires NoDup(xs)
    ensures AddAll([], xs) == xs
    decreases |xs|
  {
    if |xs| > 0 {
      var init := xs[..|xs| - 1];
      AddAllDistinct(init);
      assert xs[|xs| - 1] !in init;
      assert init + [xs[|xs| - 1]] == xs;
    }
  }

  /**
   * Toggling an absent path twice restores the set exactly: the first click
   * appends it, the second deletes it again.
   */
  lemma ToggleTwiceFromAbsent(s: seq<string>, p: string)
    requires p !in s
    ensures Delete(s + [p], p) == s
  {
    assert (s + [p])[..|s|] == s;
  }

  /**
   * Toggling a present path twice restores membership but not order: the
   * path is deleted, then re-added at the end of the iteration order.
   */
  lemma ToggleTwiceFromPresent(s: seq<string>, p: string)
    requires NoDup(s) && p in s
    ensures var t := Delete(s, p) + [p];
      NoDup(t) && multiset(t) == multiset(s) && t[|t| - 1] == p
  {
    var i :| 0 <= i < |s| && s[i] == p;
    DeleteAt(s, i);
    MoveToEnd(s, i);
    assert NoDup(Delete(s, p) + [p]);
  }

  /** Moving the element at `i` to the end keeps the same elements with the same multiplicities. */
  lemma MoveToEnd<T>(s: seq<T>, i: nat)
    requires i < |s|
    ensures multiset(s[..i] + s[i + 1..] + [s[i]]) == multiset(s)
  {
    var front, back := s[..i], s[i + 1..];
    assert s == front + [s[i]] + back;
    calc {
      multiset(s);
      multiset(front) + multiset{s[i]} + multiset(back);
      multiset(front) + multiset(back) + multiset{s[i]};
      multiset(front + back + [s[i]]);
    }
  }

  // ---------------------------------------------------------------------------
  // getAllFiles and getFileName
  // ---------------------------------------------------------------------------

  /** The paths of a list of leaves, in order. */
  function Paths(leaves: seq<FileNode>): (paths: seq<string>)
    ensures |paths| == |leaves|
    ensures forall k :: 0 <= k < |leaves| ==> paths[k] == leaves[k].path
  {
    seq(|leaves|, k requires 0 <= k < |leaves| => leaves[k].path)
  }

  /**
   * `getAllFiles`: one path per file leaf, in depth-first pre-order;
   * directories contribute nothing of their own. Leaves sharing a name give
   * the same path more than once.
   */
  method GetAllFiles(node: FileNode) returns (files: seq<string>)
    ensures |files| == |FileNodes(node)|
    ensures forall k :: 0 <= k < |files| ==> files[k] == FileNodes(node)[k].path
    decreases node
  {
    files := [];
    if node.File? {
      files := files + [node.path];
    } else {
      var children := node.children;
      for i := 0 to |children|
        invariant files == Paths(FileNodesOf(children[..i]))
      {
        var sub := GetAllFiles(children[i]);
        assert children[..i + 1][..i] == children[..i];
        assert Paths(FileNodesOf(children[..i + 1])) == files + sub;
        files := files + sub;
      }
      assert children[..|children|] == children;
    }
  }

  /** `getFileName`: the text after the last `/`, or the whole path when there is none. */
  function GetFileName(path: string): (name: string)
    ensures '/' !in name
    ensures |name| <= |path| && name == path[|path| - |name|..]
    ensures |name| < |path| ==> path[|path| - |name| - 1] == '/'
    ensures '/' !in path ==> name == path
  {
    LastSegment(path, '/')
  }

  // ---------------------------------------------------------------------------
  // The widget state
  // ---------------------------------------------------------------------------

  /** The `FileTree` component: the selected paths, in insertion order. */
  class FileTree {
    var selectedFiles: seq<string>

    ghost predicate Valid()
      reads this
    {
      NoDup(selectedFiles)
    }

    /** `useState<Set<string>>(new Set())`. */
    constructor ()
      ensures Valid() && selectedFiles == []
    {
      selectedFiles := [];
    }

    /**
     * The effect run when the tree `data` arrives: every leaf path of the
     * tree is added to the selection already there.
     */
    method SeedFrom(data: FileNode)
      requires Valid()
      modifies this
      ensures Valid()
      ensures data.Directory? ==> selectedFiles == AddAll(old(selectedFiles), Paths(FileNodes(data)))
      ensures data.File? ==> selectedFiles == old(selectedFiles)
    {
      if data.Directory? {
        var files := GetAllFiles(data);
        assert files == Paths(FileNodes(data));
        var newFiles := selectedFiles;
        for i := 0 to |files|
          invariant newFiles == AddAll(selectedFiles, files[..i])
        {
          assert files[..i + 1][..i] == files[..i];
          if files[i] !in newFiles {
            newFiles := newFiles + [files[i]];
          }
        }
        assert files[..|files|] == files;
        selectedFiles := newFiles;
      }
    }

    /** The remove button of a selected path: it leaves the set, and the set is reported. */
    method HandleRemoveFile(path: string) returns (reported: seq<string>)
      requires Valid()
      modifies this
      ensures Valid()
      ensures selectedFiles == Delete(old(selectedFiles), path)
      ensures reported == selectedFiles
    {
      selectedFiles := Delete(selectedFiles, path);
      reported := selectedFiles;
    }

    /** "Mix Selected Files": report the current selection, without changing it. */
    method HandleMixFiles() returns (reported: seq<string>)
      requires Valid()
      ensures NoDup(reported)
      ensures reported == selectedFiles
    {
      reported := selectedFiles;
    }
  }

  /** One rendered node of the tree: its expanded flag is its own state. */
  class FileTreeNode {
    const node: FileNode
    var isExpanded: bool

    constructor (node: FileNode)
      ensures this.node == node && !isExpanded
    {
      this.node := node;
      isExpanded := false;
    }

    /** A double click flips a directory's expanded flag, and touches nothing else. */
    method HandleDoubleClick()
      modifies this`isExpanded
      ensures isExpanded == if node.Directory? then !old(isExpanded) else old(isExpanded)
    {
      if node.Directory? {
        isExpanded := !isExpanded;
      }
    }

    /**
     * A click: on a directory it changes nothing and reports nothing; on a
     * file its path is deleted from the widget's selection if there and
     * appended if not, and the new selection is reported. The expanded flag
     * is not touched.
     */
    method HandleClick(tree: FileTree) returns (reported: Option<seq<string>>)
      requires tree.Valid()
      modifies tree
      ensures tree.Valid()
      ensures node.Directory? ==> tree.selectedFiles == old(tree.selectedFiles) && reported == None
      ensures node.File? ==> reported == Some(tree.selectedFiles)
      ensures node.File? && node.path in old(tree.selectedFiles) ==>
        tree.selectedFiles == Delete(old(tree.selectedFiles), node.path)
      ensures node.File? && node.path !in old(tree.selectedFiles) ==>
        tree.selectedFiles == old(tree.selectedFiles) + [node.path]
    {
      if node.File? {
        var newSelectedFiles := tree.selectedFiles;
        if node.path in newSelectedFiles {
          newSelectedFiles := Delete(newSelectedFiles, node.path);
        } else {
          newSelectedFiles := newSelectedFiles + [node.path];
        }
        tree.selectedFiles := newSelectedFiles;
        return Some(tree.selectedFiles);
      }
      return None;
    }
  }
}

/**
 * The folder tree shown by the file browser (app/states/state.py:433-450,
 * 460-465, 124-138): built by walking each record's path from the root and
 * finding or creating one folder per directory segment, then annotated
 * bottom-up with file counts.
 */
module Tree {
  import opened Wrappers
  import opened Strings
  import opened Paths
  import opened Walker

  const RootName: string := "root"

  datatype FileNode = FileNode(name: string, lines: nat)

  datatype FolderNode = FolderNode(name: string, folders: seq<FolderNode>, files: seq<FileNode>, fileCount: nat)

  function EmptyFolder(name: string): FolderNode
  {
    FolderNode(name, [], [], 0)
  }

  /** Position of the first child folder called `name` (the `next(...)` search), or `|folders|` when there is none. */
  function FindFolder(folders: seq<FolderNode>, name: string): (i: nat)
    ensures i <= |folders|
    ensures i < |folders| ==> folders[i].name == name
    ensures forall j :: 0 <= j < i ==> folders[j].name != name
  {
    if |folders| == 0 then 0
    else if folders[0].name == name then 0
    else 1 + FindFolder(folders[1..], name)
  }

  /** Appends `file` to the folder reached from `node` through `dirs`, creating missing folders on the way. */
  function InsertFile(node: FolderNode, dirs: seq<string>, file: FileNode): (r: FolderNode)
    ensures r.name == node.name
    decreases |dirs|
  {
    if |dirs| == 0 then node.(files := node.files + [file])
    else
      var i := FindFolder(node.folders, dirs[0]);
      if i < |node.folders| then
        node.(folders := node.folders[i := InsertFile(node.folders[i], dirs[1..], file)])
      else
        node.(folders := node.folders + [InsertFile(EmptyFolder(dirs[0]), dirs[1..], file)])
  }

  /** The directory segments and the file name of a record's path (`path.split(os.sep)`). */
  function DirsOf(r: FileRecord): seq<string>
  {
    var parts := Split(r.path, Sep);
    parts[..|parts| - 1]
  }

  function FileNodeOf(r: FileRecord): FileNode
  {
    var parts := Split(r.path, Sep);
    FileNode(parts[|parts| - 1], r.lines)
  }

  /** The tree before counting: every record inserted in order into an empty root. */
  function BuildTree(records: seq<FileRecord>): FolderNode
  {
    if |records| == 0 then EmptyFolder(RootName)
    else
      var last := records[|records| - 1];
      InsertFile(BuildTree(records[..|records| - 1]), DirsOf(last), FileNodeOf(last))
  }

  /** Number of files in the whole subtree. */
  function Leaves(n: FolderNode): nat
    decreases n
  {
    |n.files| + LeavesAll(n.folders)
  }

  function LeavesAll(fs: seq<FolderNode>): nat
    decreases fs
  {
    if |fs| == 0 then 0 else Leaves(fs[0]) + LeavesAll(fs[1..])
  }

  function SumCounts(fs: seq<FolderNode>): nat
  {
    if |fs| == 0 then 0 else fs[0].fileCount + SumCounts(fs[1..])
  }

  /** Every folder's count is its own files plus its children's counts. */
  ghost predicate Counted(n: FolderNode)
    decreases n
  {
    && n.fileCount == |n.files| + SumCounts(n.folders)
    && forall i :: 0 <= i < |n.folders| ==> Counted(n.folders[i])
  }

  /** `_count_files_recursively`: sets every folder's `file_count` bottom-up. */
  function CountFiles(n: FolderNode): (r: FolderNode)
    ensures Counted(r)
    ensures r.fileCount == Leaves(n)
    ensures Leaves(r) == Leaves(n)
    ensures r.name == n.name && r.files == n.files
    decreases n
  {
    var kids := CountAll(n.folders);
    FolderNode(n.name, kids, n.files, |n.files| + SumCounts(kids))
  }

  function CountAll(fs: seq<FolderNode>): (rs: seq<FolderNode>)
    ensures |rs| == |fs|
    ensures forall i :: 0 <= i < |fs| ==> rs[i] == CountFiles(fs[i])
    ensures SumCounts(rs) == LeavesAll(fs) && LeavesAll(rs) == LeavesAll(fs)
    decreases fs
  {
    if |fs| == 0 then []
    else
      var rest := CountAll(fs[1..]);
      var rs := [CountFiles(fs[0])] + rest;
      assert rs[1..] == rest;
      rs
  }

  /** In a counted tree the count of a folder is the number of files below it. */
  lemma {:induction false} CountedMeansLeaves(n: FolderNode)
    requires Counted(n)
    ensures n.fileCount == Leaves(n)
    decreases n
  {
    CountedAllMeansLeaves(n.folders);
  }

  lemma {:induction false} CountedAllMeansLeaves(fs: seq<FolderNode>)
    requires forall i :: 0 <= i < |fs| ==> Counted(fs[i])
    ensures SumCounts(fs) == LeavesAll(fs)
    decreases fs
  {
    if |fs| > 0 {
      CountedMeansLeaves(fs[0]);
      CountedAllMeansLeaves(fs[1..]);
    }
  }

  lemma {:induction false} LeavesAllUpdate(fs: seq<FolderNode>, i: nat, x: FolderNode)
    requires i < |fs|
    ensures LeavesAll(fs[i := x]) + Leaves(fs[i]) == LeavesAll(fs) + Leaves(x)
    decreases |fs|
  {
    if i > 0 {
      LeavesAllUpdate(fs[1..], i - 1, x);
      assert fs[i := x][1..] == fs[1..][i - 1 := x];
    } else {
      assert fs[i := x][1..] == fs[1..];
    }
  }

  lemma {:induction false} LeavesAllAppend(fs: seq<FolderNode>, x: FolderNode)
    ensures LeavesAll(fs + [x]) == LeavesAll(fs) + Leaves(x)
    decreases |fs|
  {
    if |fs| == 0 {
      assert LeavesAll([x]) == Leaves(x) + LeavesAll([]);
    } else {
      LeavesAllAppend(fs[1..], x);
      assert (fs + [x])[1..] == fs[1..] + [x];
    }
  }

  /** Inserting a file adds exactly one file to the tree. */
  lemma {:induction false} InsertAddsOneFile(node: FolderNode, dirs: seq<string>, file: FileNode)
    ensures Leaves(InsertFile(node, dirs, file)) == Leaves(node) + 1
    decreases |dirs|
  {
    if |dirs| > 0 {
      var i := FindFolder(node.folders, dirs[0]);
      if i < |node.folders| {
        InsertAddsOneFile(node.folders[i], dirs[1..], file);
        LeavesAllUpdate(node.folders, i, InsertFile(node.folders[i], dirs[1..], file));
      } else {
        InsertAddsOneFile(EmptyFolder(dirs[0]), dirs[1..], file);
        LeavesAllAppend(node.folders, InsertFile(EmptyFolder(dirs[0]), dirs[1..], file));
      }
    }
  }

  /** The built tree holds exactly one file per record. */
  lemma {:induction false} BuildTreeLeaves(records: seq<FileRecord>)
    ensures Leaves(BuildTree(records)) == |records|
    decreases |records|
  {
    if |records| > 0 {
      var last := records[|records| - 1];
      BuildTreeLeaves(records[..|records| - 1]);
      InsertAddsOneFile(BuildTree(records[..|records| - 1]), DirsOf(last), FileNodeOf(last));
    }
  }

  /** No two child folders of any folder share a name. */
  ghost predicate DistinctFolderNames(n: FolderNode)
    decreases n
  {
    && (forall i, j :: 0 <= i < j < |n.folders| ==> n.folders[i].name != n.folders[j].name)
    && forall i :: 0 <= i < |n.folders| ==> DistinctFolderNames(n.folders[i])
  }

  /** Folders are found or created, never duplicated. */
  lemma {:induction false} InsertKeepsNamesDistinct(node: FolderNode, dirs: seq<string>, file: FileNode)
    requires DistinctFolderNames(node)
    ensures DistinctFolderNames(InsertFile(node, dirs, file))
    decreases |dirs|
  {
    if |dirs| > 0 {
      var i := FindFolder(node.folders, dirs[0]);
      if i < |node.folders| {
        InsertKeepsNamesDistinct(node.folders[i], dirs[1..], file);
      } else {
        InsertKeepsNamesDistinct(EmptyFolder(dirs[0]), dirs[1..], file);
      }
    }
  }

  lemma {:induction false} BuildTreeNamesDistinct(records: seq<FileRecord>)
    ensures DistinctFolderNames(BuildTree(records))
    decreases |records|
  {
    if |records| > 0 {
      var last := records[|records| - 1];
      BuildTreeNamesDistinct(records[..|records| - 1]);
      InsertKeepsNamesDistinct(BuildTree(records[..|records| - 1]), DirsOf(last), FileNodeOf(last));
    }
  }

  /** The folder reached from `n` by following child folders named by `path`, if every segment matches. */
  function Navigate(n: FolderNode, path: seq<string>): Option<FolderNode>
    decreases |path|
  {
    if |path| == 0 then Some(n)
    else
      var i := FindFolder(n.folders, path[0]);
      if i < |n.folders| then Navigate(n.folders[i], path[1..]) else None
  }

  /** The placeholder `current_view` returns when the path leads nowhere. */
  function Placeholder(): FolderNode
  {
    EmptyFolder(RootName)
  }

  /** `current_view`: the folder at `path`, or the empty "root" placeholder. */
  function CurrentView(tree: FolderNode, path: seq<string>): FolderNode
  {
    match Navigate(tree, path)
    case Some(v) => v
    case None => Placeholder()
  }

  /** Following `p + q` is following `p`, then `q` from where `p` led. */
  lemma {:induction false} NavigateAppend(n: FolderNode, p: seq<string>, q: seq<string>)
    ensures Navigate(n, p + q) == match Navigate(n, p) case None => None case Some(v) => Navigate(v, q)
    decreases |p|
  {
    if |p| == 0 {
      assert p + q == q;
    } else {
      assert (p + q)[0] == p[0];
      assert (p + q)[1..] == p[1..] + q;
      var i := FindFolder(n.folders, p[0]);
      if i < |n.folders| {
        NavigateAppend(n.folders[i], p[1..], q);
      }
    }
  }

  /** As soon as a segment names no child folder, the view is the placeholder, whatever follows. */
  lemma CurrentViewStopsAtMissingFolder(tree: FolderNode, p: seq<string>, missing: string, rest: seq<string>)
    requires Navigate(tree, p).Some?
    requires forall i :: 0 <= i < |Navigate(tree, p).value.folders| ==> Navigate(tree, p).value.folders[i].name != missing
    ensures CurrentView(tree, p + [missing] + rest) == Placeholder()
  {
    NavigateAppend(tree, p, [missing] + rest);
    assert p + [missing] + rest == p + ([missing] + rest);
  }

  lemma FindFolderSameNames(a: seq<FolderNode>, b: seq<FolderNode>, name: string)
    requires |a| == |b|
    requires forall i :: 0 <= i < |a| ==> a[i].name == b[i].name
    ensures FindFolder(a, name) == FindFolder(b, name)
  {
  }

  lemma FindFolderAppend(a: seq<FolderNode>, x: FolderNode, name: string)
    requires FindFolder(a, name) < |a|
    ensures FindFolder(a + [x], name) == FindFolder(a, name)
  {
    var i := FindFolder(a, name);
    assert (a + [x])[i] == a[i];
  }

  /** The file just inserted sits in the folder its directory segments lead to. */
  lemma {:induction false} InsertPlacesFile(node: FolderNode, dirs: seq<string>, file: FileNode)
    ensures Navigate(InsertFile(node, dirs, file), dirs).Some?
    ensures file in Navigate(InsertFile(node, dirs, file), dirs).value.files
    decreases |dirs|
  {
    if |dirs| > 0 {
      var r := InsertFile(node, dirs, file);
      var i := FindFolder(node.folders, dirs[0]);
      if i < |node.folders| {
        var child := InsertFile(node.folders[i], dirs[1..], file);
        FindFolderSameNames(node.folders, node.folders[i := child], dirs[0]);
        InsertPlacesFile(node.folders[i], dirs[1..], file);
      } else {
        var child := InsertFile(EmptyFolder(dirs[0]), dirs[1..], file);
        assert FindFolder(r.folders, dirs[0]) == i by {
          assert r.folders[i] == child;
        }
        InsertPlacesFile(EmptyFolder(dirs[0]), dirs[1..], file);
      }
    }
  }

  /** Inserting a file never moves or removes a file already in the tree. */
  lemma {:induction false} InsertKeepsFile(node: FolderNode, dirs: seq<string>, file: FileNode, p: seq<string>, old_: FileNode)
    requires Navigate(node, p).Some? && old_ in Navigate(node, p).value.files
    ensures Navigate(InsertFile(node, dirs, file), p).Some?
    ensures old_ in Navigate(InsertFile(node, dirs, file), p).value.files
    decreases |p|
  {
    var r := InsertFile(node, dirs, file);
    if |p| > 0 && |dirs| > 0 {
      var c := FindFolder(node.folders, p[0]);
      var i := FindFolder(node.folders, dirs[0]);
      if i < |node.folders| {
        var child := InsertFile(node.folders[i], dirs[1..], file);
        FindFolderSameNames(node.folders, node.folders[i := child], p[0]);
        if c == i {
          InsertKeepsFile(node.folders[i], dirs[1..], file, p[1..], old_);
        }
      } else {
        FindFolderAppend(node.folders, InsertFile(EmptyFolder(dirs[0]), dirs[1..], file), p[0]);
      }
    }
  }

  /** Every record's file is listed in the folder its path's directory segments lead to. */
  lemma {:induction false} BuildTreeHoldsRecords(records: seq<FileRecord>, k: nat)
    requires k < |records|
    ensures Navigate(BuildTree(records), DirsOf(records[k])).Some?
    ensures FileNodeOf(records[k]) in Navigate(BuildTree(records), DirsOf(records[k])).value.files
    decreases |records|
  {
    var init := records[..|records| - 1];
    var last := records[|records| - 1];
    if k == |records| - 1 {
      InsertPlacesFile(BuildTree(init), DirsOf(last), FileNodeOf(last));
    } else {
      BuildTreeHoldsRecords(init, k);
      assert init[k] == records[k];
      InsertKeepsFile(BuildTree(init), DirsOf(last), FileNodeOf(last), DirsOf(records[k]), FileNodeOf(records[k]));
    }
  }

  /** Counting changes no folder's name or files, so navigation finds the same folders. */
  lemma {:induction false} NavigateCounted(n: FolderNode, p: seq<string>)
    ensures Navigate(CountFiles(n), p) == match Navigate(n, p) case None => None case Some(v) => Some(CountFiles(v))
    decreases |p|
  {
    if |p| > 0 {
      var counted := CountFiles(n);
      FindFolderSameNames(n.folders, counted.folders, p[0]);
      var i := FindFolder(n.folders, p[0]);
      if i < |n.folders| {
        NavigateCounted(n.folders[i], p[1..]);
      }
    }
  }

  /** Every record's file is listed in the view of its directory in the counted tree. */
  lemma ScanTreeShowsRecord(records: seq<FileRecord>, k: nat)
    requires k < |records|
    ensures FileNodeOf(records[k]) in CurrentView(CountFiles(BuildTree(records)), DirsOf(records[k])).files
  {
    BuildTreeHoldsRecords(records, k);
    NavigateCounted(BuildTree(records), DirsOf(records[k]));
  }

  /** Counting renames nothing, so distinct child names stay distinct. */
  lemma {:induction false} CountKeepsDistinct(n: FolderNode)
    requires DistinctFolderNames(n)
    ensures DistinctFolderNames(CountFiles(n))
    decreases n
  {
    var r := CountFiles(n);
    assert r.folders == CountAll(n.folders);
    forall i | 0 <= i < |n.folders|
      ensures DistinctFolderNames(r.folders[i])
    {
      CountKeepsDistinct(n.folders[i]);
    }
  }

  /**
   * The tree a scan publishes: rooted at "root", one file per record, every
   * folder's count consistent with its children, child names distinct.
   */
  lemma ScanTreeCounts(records: seq<FileRecord>)
    ensures CountFiles(BuildTree(records)).name == RootName
    ensures CountFiles(BuildTree(records)).fileCount == |records|
    ensures Counted(CountFiles(BuildTree(records)))
    ensures DistinctFolderNames(CountFiles(BuildTree(records)))
  {
    BuildTreeLeaves(records);
    BuildTreeNamesDistinct(records);
    CountKeepsDistinct(BuildTree(records));
    BuildTreeRoot(records);
  }

  lemma {:induction false} BuildTreeRoot(records: seq<FileRecord>)
    ensures BuildTree(records).name == RootName
    decreases |records|
  {
    if |records| > 0 {
      BuildTreeRoot(records[..|records| - 1]);
    }
  }
}

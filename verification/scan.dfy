/**
 * One scan end to end and the session state it updates
 * (app/states/state.py:65-93, 356-458): choose the scan root, walk it,
 * aggregate the metrics, build the dependency graph, check the
 * architecture rule, find unused modules, build and count the folder tree,
 * then publish the snapshot and reset the navigation path. Also the two
 * events that undo part of a scan's effect on the session:
 * `_cleanup_temp_dir` and `clear_upload` (app/states/state.py:276-296).
 */
module Scan {
  import opened Wrappers
  import opened Strings
  import opened Sorting
  import opened Paths
  import opened OrderedDict
  import opened Walker
  import opened Imports
  import opened Graph
  import opened Architecture
  import opened Unused
  import opened Tree
  import opened Views

  /** What a scan publishes; the timestamp and the always-empty folder table are not modelled. */
  datatype Snapshot = Snapshot(
    totalFiles: nat,
    totalSize: nat,
    totalLines: nat,
    files: seq<FileRecord>,
    fileTypes: Dict<nat>,
    graph: DependencyGraph,
    violations: seq<string>,
    unused: seq<string>)

  datatype ScanError = PathNotFound

  /**
   * The part of the dashboard state the scan and the views touch.
   * `uploadedRoot` is the upload directory's absolute path, when there is one:
   * the extracted archive, or the temporary directory holding individually
   * uploaded files.
   */
  datatype Session = Session(
    latest: Option<Snapshot>,
    history: seq<Snapshot>,
    tree: FolderNode,
    currentPath: seq<string>,
    searchQuery: string,
    filterExtension: string,
    uploadedRoot: Option<seq<Name>>)

  function InitialSession(): Session
  {
    Session(None, [], EmptyFolder(RootName), [], "", "", None)
  }

  /** Everything a snapshot's parts promise about each other and about its file list. */
  ghost predicate ConsistentSnapshot(snap: Snapshot)
  {
    && snap.totalFiles == |snap.files|
    && snap.totalSize == SumSizes(snap.files)
    && snap.totalLines == SumLines(snap.files)
    && UniqueKeys(snap.fileTypes)
    && SumValues(snap.fileTypes) == snap.totalFiles
    && (forall e :: GetCount(snap.fileTypes, e) == CountExt(snap.files, e))
    && (forall e :: e in Keys(snap.fileTypes) <==> exists i :: 0 <= i < |snap.files| && snap.files[i].ext == e)
    && UniqueKeys(snap.graph)
    && Keys(snap.graph) == Dedup(PyPaths(snap.files))
    && snap.violations == Messages(ViolatingPairs(snap.graph))
    && StrictlySorted(snap.unused, LexLess)
    && (forall p :: p in snap.unused <==>
          (p in PyPaths(snap.files) && !Referenced(p, snap.graph) && !EndsWith(p, PackageMarker)))
  }

  function LatestFiles(s: Session): seq<FileRecord>
  {
    if s.latest.Some? then s.latest.value.files else []
  }

  /** The files of the last snapshot taken: what the folder tree shows, even once the latest snapshot has been cleared. */
  function LastScannedFiles(history: seq<Snapshot>): seq<FileRecord>
  {
    if history == [] then [] else history[|history| - 1].files
  }

  /**
   * What every reachable session keeps, `clear_upload` included: a latest
   * snapshot, when there is one, is the last of the history; every snapshot
   * is consistent; and the tree is that of the last snapshot taken.
   */
  ghost predicate DashboardInvariant(s: Session)
  {
    && (s.latest.Some? ==> s.history != [] && s.latest.value == s.history[|s.history| - 1])
    && (forall i :: 0 <= i < |s.history| ==> ConsistentSnapshot(s.history[i]))
    && s.tree == CountFiles(BuildTree(LastScannedFiles(s.history)))
  }

  /**
   * The invariant of a session whose latest snapshot has not been cleared
   * since the last scan: there is a latest snapshot exactly when there is a
   * history, so the tree is the latest snapshot's.
   */
  ghost predicate SessionInvariant(s: Session)
  {
    && DashboardInvariant(s)
    && (s.latest.None? <==> s.history == [])
  }

  /** The fresh dashboard satisfies the invariant: its empty tree is the tree of no files. */
  lemma InitialSessionInvariant()
    ensures SessionInvariant(InitialSession())
  {
    assert CountFiles(BuildTree([])) == EmptyFolder(RootName);
  }

  /** The directory a scan reads and resolves against: the upload when there is one, the working directory otherwise. */
  function ScanBase(s: Session, cwd: seq<Name>): (base: ScanRoot)
    ensures s.uploadedRoot.Some? <==> base.Absolute?
  {
    match s.uploadedRoot
    case Some(segments) => Absolute(segments)
    case None => CurrentDir(cwd)
  }

  /** The metrics, graph, violations and unused list of one scan's files. */
  method TakeSnapshot(files: seq<FileRecord>, sources: map<string, Source>, base: ScanRoot) returns (snap: Snapshot)
    ensures snap.files == files
    ensures ConsistentSnapshot(snap)
    ensures forall k :: 0 <= k < |snap.graph| ==>
      snap.graph[k].value == FileDependencies(snap.graph[k].key, sources, base)
  {
    var totals := Aggregate(files);
    var graph := BuildGraph(files, sources, base);
    var violations := ValidateArchitecture(graph);
    var unused := FindUnused(files, graph);
    snap := Snapshot(totals.totalFiles, totals.totalSize, totals.totalLines, files,
                     totals.histogram, graph, violations, unused);
    forall k | 0 <= k < |graph|
      ensures graph[k].value == FileDependencies(graph[k].key, sources, base)
    {
      assert graph[k].key in Keys(graph);
      GetIndex(graph, k);
    }
  }

  /** Publishing a snapshot: it becomes the latest and joins the history, its tree replaces the old one, and navigation returns to the root. */
  function Publish(s: Session, snap: Snapshot): Session
  {
    s.(latest := Some(snap), history := s.history + [snap],
       tree := CountFiles(BuildTree(snap.files)), currentPath := [])
  }

  /** Publishing a consistent snapshot restores the full invariant, also after `clear_upload`. */
  lemma PublishKeepsInvariant(s: Session, snap: Snapshot)
    requires DashboardInvariant(s) && ConsistentSnapshot(snap)
    ensures SessionInvariant(Publish(s, snap))
  {
    var t := Publish(s, snap);
    assert forall i :: 0 <= i < |s.history| ==> t.history[i] == s.history[i];
  }

  /**
   * `run_scan`. `root` is the directory at the scan path (`None` when it
   * does not exist), `cwd` the process's working directory, and `sources`
   * the content of each file by its relative path.
   */
  method RunScan(s: Session, root: Option<Dir>, cwd: seq<Name>, sources: map<string, Source>)
    returns (r: Result<Session, ScanError>)
    ensures root.None? <==> r.Err?
    ensures r.Ok? ==> var t := r.value;
      && t.latest.Some?
      && t.history == s.history + [t.latest.value]
      && t.latest.value.files == Walk(root.value, [])
      && (forall i :: 0 <= i < |t.latest.value.files| ==> GoodRecord(t.latest.value.files[i]))
      && ConsistentSnapshot(t.latest.value)
      && (forall k :: 0 <= k < |t.latest.value.graph| ==>
            t.latest.value.graph[k].value == FileDependencies(t.latest.value.graph[k].key, sources, ScanBase(s, cwd)))
      && t.tree.fileCount == t.latest.value.totalFiles
      && t.currentPath == []
      && t.searchQuery == s.searchQuery && t.filterExtension == s.filterExtension
      && t.uploadedRoot == s.uploadedRoot
    ensures r.Ok? && DashboardInvariant(s) ==> SessionInvariant(r.value)
  {
    if root.None? {
      return Err(PathNotFound);
    }
    var files := Walk(root.value, []);
    ScanRecordsGood(root.value);
    var snap := TakeSnapshot(files, sources, ScanBase(s, cwd));
    ScanTreeCounts(files);
    if DashboardInvariant(s) {
      PublishKeepsInvariant(s, snap);
    }
    return Ok(Publish(s, snap));
  }

  /**
   * Moving along the breadcrumb (`add_to_path`, `set_path_to_index`) only
   * changes `current_path`, which neither invariant mentions.
   */
  lemma NavigationKeepsInvariant(s: Session, path: seq<string>)
    ensures DashboardInvariant(s) ==> DashboardInvariant(s.(currentPath := path))
    ensures SessionInvariant(s) ==> SessionInvariant(s.(currentPath := path))
  {
  }

  /** `_cleanup_temp_dir`: the upload is forgotten only when its directory existed and was removed (`removed`). */
  function CleanupTempDir(s: Session, removed: bool): (t: Session)
    ensures t.uploadedRoot == (if removed then None else s.uploadedRoot)
    ensures t.(uploadedRoot := s.uploadedRoot) == s
  {
    if removed then s.(uploadedRoot := None) else s
  }

  /** `clear_upload`: the upload is cleaned up and the latest snapshot forgotten; the history, the tree and the path stay. */
  function ClearUpload(s: Session, removed: bool): Session
  {
    CleanupTempDir(s, removed).(latest := None)
  }

  /** Clearing the upload keeps the weaker invariant and the history, and the dashboard's totals drop to nothing. */
  lemma ClearUploadKeepsInvariant(s: Session, removed: bool)
    requires DashboardInvariant(s)
    ensures DashboardInvariant(ClearUpload(s, removed))
    ensures ClearUpload(s, removed).history == s.history
    ensures ClearUpload(s, removed).tree == s.tree
    ensures TotalFiles(ClearUpload(s, removed)) == 0
  {
  }

  /**
   * After a scan that found files, `clear_upload` leaves a tree whose root
   * still counts them while `total_files` reads 0: the full invariant fails.
   */
  lemma ClearUploadLeavesStaleTree(s: Session, removed: bool)
    requires SessionInvariant(s) && s.latest.Some? && s.latest.value.totalFiles > 0
    ensures CurrentView(ClearUpload(s, removed).tree, []).fileCount == s.latest.value.totalFiles
    ensures TotalFiles(ClearUpload(s, removed)) == 0
    ensures !SessionInvariant(ClearUpload(s, removed))
  {
    TreeRootMatchesLastScan(s);
  }

  /** In every reachable session the root of the browsable tree counts the files of the last scan, 0 before any. */
  lemma TreeRootMatchesLastScan(s: Session)
    requires DashboardInvariant(s)
    ensures CurrentView(s.tree, []).fileCount == (if s.history == [] then 0 else s.history[|s.history| - 1].totalFiles)
  {
    ScanTreeCounts(LastScannedFiles(s.history));
    if s.history != [] {
      assert ConsistentSnapshot(s.history[|s.history| - 1]);
    }
  }

  /** `total_files`: the latest snapshot's count, 0 before the first scan. */
  function TotalFiles(s: Session): nat
  {
    if s.latest.Some? then s.latest.value.totalFiles else 0
  }

  /** Until `clear_upload` forgets the latest snapshot, the root of the browsable tree counts exactly the files the dashboard reports. */
  lemma TreeRootMatchesTotal(s: Session)
    requires SessionInvariant(s)
    ensures CurrentView(s.tree, []).fileCount == TotalFiles(s)
  {
    TreeRootMatchesLastScan(s);
  }

  /** `unused_components`: empty before the first scan. */
  function UnusedOf(s: Session): seq<string>
  {
    if s.latest.Some? then s.latest.value.unused else []
  }

  /** `filtered_unused_components` read from the session. */
  function FilteredUnusedOf(s: Session): seq<string>
  {
    FilteredUnused(UnusedOf(s), s.searchQuery, s.filterExtension)
  }

  /** Whatever the filters, the list shown is sorted and lists only unused Python modules. */
  lemma FilteredUnusedSorted(s: Session)
    requires DashboardInvariant(s)
    ensures forall i, j :: 0 <= i < j < |FilteredUnusedOf(s)| ==> LexLess(FilteredUnusedOf(s)[i], FilteredUnusedOf(s)[j])
    ensures forall p :: p in FilteredUnusedOf(s) ==> p in PyPaths(LatestFiles(s)) && !EndsWith(p, PackageMarker)
  {
    LexLessIsStrictTotalOrder();
    SubsequenceSorted(FilteredUnusedOf(s), UnusedOf(s), LexLess);
  }

  /** `unique_extensions` read from the session. */
  function UniqueExtensionsOf(s: Session): seq<string>
  {
    UniqueExtensions(UnusedOf(s))
  }

  /** `dependency_graph_data` read from the session: empty before the first scan. */
  function GraphViewOf(s: Session): (r: GraphData)
    ensures s.latest.None? ==> r == GraphData([], [])
  {
    if s.latest.Some? then GraphView(s.latest.value.graph) else GraphData([], [])
  }

  /** `architecture_violations` read from the session. */
  function ViolationsOf(s: Session): seq<string>
  {
    if s.latest.Some? then s.latest.value.violations else []
  }

  /**
   * In every reachable session `architecture_violations` lists the messages
   * of the latest graph's violating pairs, and `unique_extensions` offers,
   * sorted, the dotted extensions of the unused modules; both are empty when
   * there is no latest snapshot.
   */
  lemma SessionViewsOfLatest(s: Session)
    requires DashboardInvariant(s)
    ensures ViolationsOf(s) == (if s.latest.Some? then Messages(ViolatingPairs(s.latest.value.graph)) else [])
    ensures StrictlySorted(UniqueExtensionsOf(s), LexLess)
    ensures forall e :: e in UniqueExtensionsOf(s) <==>
      e != "" && exists u :: u in UnusedOf(s) && SplitExt(u).1 == e
    ensures s.latest.None? ==> UniqueExtensionsOf(s) == []
  {
    if s.latest.Some? {
      assert ConsistentSnapshot(s.history[|s.history| - 1]);
    }
  }
}

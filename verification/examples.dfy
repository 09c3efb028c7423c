/**
 * Concrete scans worked through the model: the dashboard's behaviour on
 * small projects, stated as lemmas about fixed inputs.
 */
module Scenarios {
  import opened Wrappers
  import opened Strings
  import opened Paths
  import opened OrderedDict
  import opened Walker
  import opened Imports
  import opened Graph
  import opened Architecture
  import opened Unused
  import opened Tree
  import opened Sorting
  import opened Scan

  /** A record for the file at `dirs + [name]` below the scan root. */
  function At(dirs: seq<Name>, name: Name, lines: nat): FileRecord
  {
    FileRecord(JoinWith(dirs + [name], Sep), 0, lines, ExtensionOf(name))
  }

  lemma AtParts(dirs: seq<Name>, name: Name, lines: nat)
    ensures DirsOf(At(dirs, name, lines)) == dirs
    ensures FileNodeOf(At(dirs, name, lines)) == FileNode(name, lines)
  {
    var parts: seq<string> := dirs + [name];
    assert forall k :: 0 <= k < |parts| ==> Sep !in parts[k];
    SplitJoin(parts, Sep);
    assert parts[..|parts| - 1] == dirs;
  }

  lemma TreeAfterFirst(x: Name, y: Name, sub: Name)
    ensures BuildTree([At([], x, 1), At([sub], y, 2)])
      == FolderNode(RootName, [FolderNode(sub, [], [FileNode(y, 2)], 0)], [FileNode(x, 1)], 0)
  {
    var rx, ry := At([], x, 1), At([sub], y, 2);
    AtParts([], x, 1);
    AtParts([sub], y, 2);
    assert [rx, ry][..1] == [rx] && [rx][..0] == [];
    var t1 := FolderNode(RootName, [], [FileNode(x, 1)], 0);
    assert BuildTree([rx]) == InsertFile(EmptyFolder(RootName), [], FileNode(x, 1));
    assert BuildTree([rx]) == t1;
    var f := FileNode(y, 2);
    assert BuildTree([rx, ry]) == InsertFile(t1, [sub], f);
    assert FindFolder([], sub) == 0;
    assert InsertFile(t1, [sub], f) == t1.(folders := [] + [InsertFile(EmptyFolder(sub), [sub][1..], f)]);
    var leaf := InsertFile(EmptyFolder(sub), [], f);
    assert leaf.files == [] + [f] == [f];
    assert leaf == FolderNode(sub, [], [f], 0);
    assert [] + [leaf] == [leaf];
  }

  lemma TreeAfterSecond(x: Name, y: Name, z: Name, sub: Name, sub2: Name)
    ensures BuildTree([At([], x, 1), At([sub], y, 2), At([sub, sub2], z, 3)])
      == FolderNode(RootName,
           [FolderNode(sub, [FolderNode(sub2, [], [FileNode(z, 3)], 0)], [FileNode(y, 2)], 0)],
           [FileNode(x, 1)], 0)
  {
    var rx, ry, rz := At([], x, 1), At([sub], y, 2), At([sub, sub2], z, 3);
    TreeAfterFirst(x, y, sub);
    AtParts([sub, sub2], z, 3);
    assert [rx, ry, rz][..2] == [rx, ry];
    var subNode := FolderNode(sub, [], [FileNode(y, 2)], 0);
    var t2 := FolderNode(RootName, [subNode], [FileNode(x, 1)], 0);
    var f := FileNode(z, 3);
    assert BuildTree([rx, ry, rz]) == InsertFile(t2, [sub, sub2], f);
    assert FindFolder([], sub2) == 0;
    assert InsertFile(subNode, [sub2], f) == subNode.(folders := [] + [InsertFile(EmptyFolder(sub2), [sub2][1..], f)]);
    var leaf := InsertFile(EmptyFolder(sub2), [], f);
    assert leaf.files == [] + [f] == [f];
    assert leaf == FolderNode(sub2, [], [f], 0);
    assert [] + [leaf] == [leaf];
    assert [subNode][0 := InsertFile(subNode, [sub2], f)] == [InsertFile(subNode, [sub2], f)];
    assert FindFolder([subNode], sub) == 0;
    assert [sub, sub2][1..] == [sub2];
    assert InsertFile(t2, [sub, sub2], f) == t2.(folders := [subNode][0 := InsertFile(subNode, [sub2], f)]);
  }

  /**
   * Files `x`, `sub/y` and `sub/sub2/z`: the root counts 3, `sub` counts 2
   * and `sub/sub2` counts 1; `sub2` is reachable only through `sub`.
   */
  lemma ThreeFileTree(x: Name, y: Name, z: Name, sub: Name, sub2: Name)
    ensures var t := CountFiles(BuildTree([At([], x, 1), At([sub], y, 2), At([sub, sub2], z, 3)]));
      && t.fileCount == 3
      && CurrentView(t, [sub]).fileCount == 2
      && CurrentView(t, [sub, sub2]).fileCount == 1
      && (sub2 != sub ==> CurrentView(t, [sub2]) == Placeholder())
  {
    TreeAfterSecond(x, y, z, sub, sub2);
    var m2 := FolderNode(sub2, [], [FileNode(z, 3)], 0);
    var m1 := FolderNode(sub, [m2], [FileNode(y, 2)], 0);
    var n2 := FolderNode(sub2, [], [FileNode(z, 3)], 1);
    var n1 := FolderNode(sub, [n2], [FileNode(y, 2)], 2);
    assert CountAll([]) == [];
    assert CountFiles(m2) == n2;
    assert CountAll([m2]) == [n2];
    assert SumCounts([n2]) == 1;
    assert CountFiles(m1) == n1;
    assert CountAll([m1]) == [n1];
    assert SumCounts([n1]) == 2;
    var t := CountFiles(BuildTree([At([], x, 1), At([sub], y, 2), At([sub, sub2], z, 3)]));
    assert t == FolderNode(RootName, [n1], [FileNode(x, 1)], 3);
    assert [sub, sub2][1..] == [sub2];
    assert FindFolder(t.folders, sub) == 0;
    assert Navigate(t, [sub]) == Navigate(n1, []);
    assert FindFolder(n1.folders, sub2) == 0;
    assert Navigate(t, [sub, sub2]) == Navigate(n1, [sub2]) == Navigate(n2, []);
  }

  /** `from .util import x` in `pkg/main.py` resolves to `pkg.util`, whatever directory is being scanned. */
  lemma SiblingImportResolves(pkg: Name, main: Name, util: ModuleName, base: ScanRoot)
    requires '.' !in pkg && '.' !in util
    ensures ParseImports([ImportFrom(Some(util), 1)], JoinWith([pkg, main], Sep), base) == [pkg + "." + util]
  {
    var mainPath := JoinWith([pkg, main], Sep);
    SplitJoin([pkg, main], Sep);
    assert DirOf(mainPath) == [pkg];
    ResolveWithinRoot(mainPath, base, util, 1);
    assert Split(util, '.') == [util];
    var dep := pkg + "." + util;
    assert JoinWith([pkg, util], '.') == dep;
    assert CollectRefs([ImportFrom(Some(util), 1)], mainPath, base) == [dep];
    assert [dep][1..] == [] && [] + [dep] == [dep];
    assert DedupInto([], [dep]) == DedupInto([dep], []);
  }

  /** The dependency `pkg.util` marks `pkg/util.py` as used. */
  lemma SiblingImportIsUsed(pkg: Name, main: Name, util: ModuleName, base: ScanRoot)
    requires '.' !in pkg && '.' !in util
    ensures var mainPath := JoinWith([pkg, main], Sep);
      Referenced(JoinWith([pkg, util + PythonExt], Sep),
                 [Entry(mainPath, ParseImports([ImportFrom(Some(util), 1)], mainPath, base))])
  {
    SiblingImportResolves(pkg, main, util, base);
    var dep := pkg + "." + util;
    var g := [Entry(JoinWith([pkg, main], Sep), [dep])];
    assert dep in AllDeps(g) by {
      assert dep in g[0].value;
    }
    assert JoinWith([pkg, util], '.') == dep;
    ReplaceJoin([pkg, util], '.', Sep);
    assert ModuleCandidate(dep) == JoinWith([pkg, util + PythonExt], Sep);
  }

  /** One component importing one state module yields exactly one message, in the fixed wording. */
  lemma ComponentImportingStateViolates(file: string, dep: string)
    requires Contains(file, ComponentToken) && Contains(dep, StateToken)
    ensures Messages(ViolatingPairs([Entry(file, [dep])]))
      == ["Violation: Component '" + file + "' imports state '" + dep + "'"]
  {
    var g := [Entry(file, [dep])];
    assert g[..0] == [] && [dep][..0] == [];
    assert EntryViolations(file, [dep]) == EntryViolations(file, []) + [(file, dep)];
    assert ViolatingPairs(g) == ViolatingPairs([]) + EntryViolations(file, [dep]);
    assert ViolatingPairs(g) == [(file, dep)];
    assert [(file, dep)][..0] == [];
  }

  /** A project holding only an ignored directory (".git", say) scans to no records at all. */
  lemma OnlyIgnoredDirectory(rootName: Name, ignored: Dir)
    requires ignored.name in IgnoreDirs
    ensures Walk(Dir(rootName, [ignored], []), []) == []
  {
    assert [ignored][1..] == [];
    assert WalkSubdirs([ignored], []) == [] + WalkSubdirs([], []);
    assert Walk(Dir(rootName, [ignored], []), []) == FileRecords([], []) + WalkSubdirs([ignored], []);
  }

  lemma EmptyWhenNoMember<T>(s: seq<T>)
    ensures (forall x :: x !in s) ==> s == []
  {
    if s != [] {
      assert s[0] in s;
    }
  }

  /** A snapshot of no records: no files, no size, an empty graph, no violations, nothing unused, an empty tree. */
  lemma EmptyScan(snap: Snapshot)
    requires ConsistentSnapshot(snap) && snap.files == []
    ensures snap.totalFiles == 0 && snap.totalSize == 0 && snap.totalLines == 0
    ensures snap.fileTypes == [] && snap.graph == [] && snap.violations == [] && snap.unused == []
    ensures CountFiles(BuildTree(snap.files)).fileCount == 0
  {
    assert Keys(snap.graph) == [];
    EmptyWhenNoMember(Keys(snap.fileTypes));
    EmptyWhenNoMember(snap.unused);
  }
}

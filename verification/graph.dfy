/**
 * Dependency-graph construction (`_build_dependency_graph`,
 * app/states/state.py:512-520): every `.py` record becomes a key, in the
 * order the walk found it, mapped to the references its source imports.
 */
module Graph {
  import opened Wrappers
  import opened Sorting
  import opened OrderedDict
  import opened Walker
  import opened Imports

  /** File path -> referenced module identifiers, in key insertion order. */
  type DependencyGraph = Dict<seq<string>>

  const PythonExt: string := ".py"

  /** What reading the file at `path` yields; a path the reader does not know cannot be opened. */
  function SourceAt(sources: map<string, Source>, path: string): Source
  {
    if path in sources then sources[path] else Unreadable
  }

  /** The dependencies recorded for the `.py` file at `path`. */
  function FileDependencies(path: string, sources: map<string, Source>, base: ScanRoot): seq<string>
  {
    ExtractDependencies(path, PythonExt, SourceAt(sources, path), base)
  }

  /** Paths of the `.py` records, in record order. */
  function PyPaths(records: seq<FileRecord>): seq<string>
  {
    if |records| == 0 then []
    else
      var last := records[|records| - 1];
      PyPaths(records[..|records| - 1]) + (if last.ext == PythonExt then [last.path] else [])
  }

  /** The `.py` paths are exactly the paths of the records whose extension is `.py`. */
  lemma {:induction false} PyPathsMembers(records: seq<FileRecord>)
    ensures forall p :: p in PyPaths(records) <==>
      exists i :: 0 <= i < |records| && records[i].ext == PythonExt && records[i].path == p
    decreases |records|
  {
    if |records| > 0 {
      var init := records[..|records| - 1];
      PyPathsMembers(init);
      assert forall i :: 0 <= i < |init| ==> init[i] == records[i];
    }
  }

  /** One iteration of the construction loop: a `.py` record sets its path's entry. */
  function AddRecord(g: DependencyGraph, r: FileRecord, sources: map<string, Source>, base: ScanRoot): DependencyGraph
  {
    if r.ext == PythonExt then Put(g, r.path, ExtractDependencies(r.path, r.ext, SourceAt(sources, r.path), base)) else g
  }

  /** The graph built from a prefix of the records: keys in first-occurrence order, each mapped to its file's dependencies. */
  ghost predicate BuiltFrom(g: DependencyGraph, records: seq<FileRecord>, sources: map<string, Source>, base: ScanRoot)
  {
    && UniqueKeys(g)
    && Keys(g) == Dedup(PyPaths(records))
    && forall k :: k in Keys(g) ==> Get(g, k) == Some(FileDependencies(k, sources, base))
  }

  lemma AddRecordStep(g: DependencyGraph, records: seq<FileRecord>, r: FileRecord, sources: map<string, Source>, base: ScanRoot)
    requires BuiltFrom(g, records, sources, base)
    ensures BuiltFrom(AddRecord(g, r, sources, base), records + [r], sources, base)
  {
    var before := PyPaths(records);
    assert (records + [r])[..|records|] == records;
    assert PyPaths(records + [r]) == before + (if r.ext == PythonExt then [r.path] else []);
    if r.ext == PythonExt {
      DedupIntoSnoc([], before, r.path);
      var deps := ExtractDependencies(r.path, r.ext, SourceAt(sources, r.path), base);
      PutKeepsKeysUnique(g, r.path, deps);
      forall k | k in Keys(Put(g, r.path, deps))
        ensures Get(Put(g, r.path, deps), k) == Some(FileDependencies(k, sources, base))
      {
        PutGet(g, r.path, deps, k);
      }
    } else {
      assert before + [] == before;
    }
  }

  method BuildGraph(records: seq<FileRecord>, sources: map<string, Source>, base: ScanRoot)
    returns (graph: DependencyGraph)
    ensures UniqueKeys(graph)
    ensures Keys(graph) == Dedup(PyPaths(records))
    ensures forall k :: k in Keys(graph) <==> exists i :: 0 <= i < |records| && records[i].ext == PythonExt && records[i].path == k
    ensures forall k :: k in Keys(graph) ==> Get(graph, k) == Some(FileDependencies(k, sources, base))
  {
    PyPathsMembers(records);
    graph := [];
    var i := 0;
    assert records[..0] == [];
    while i < |records|
      invariant 0 <= i <= |records|
      invariant BuiltFrom(graph, records[..i], sources, base)
    {
      AddRecordStep(graph, records[..i], records[i], sources, base);
      assert records[..i] + [records[i]] == records[..i + 1];
      graph := AddRecord(graph, records[i], sources, base);
      i := i + 1;
    }
    assert records[..i] == records;
  }

  /** Every referenced identifier, file by file in key order, each file's references in stored order. */
  function AllDeps(g: DependencyGraph): (ds: seq<string>)
    ensures forall d :: d in ds <==> exists i :: 0 <= i < |g| && d in g[i].value
  {
    if |g| == 0 then []
    else
      var init := g[..|g| - 1];
      assert forall i :: 0 <= i < |init| ==> init[i] == g[i];
      AllDeps(init) + g[|g| - 1].value
  }
}

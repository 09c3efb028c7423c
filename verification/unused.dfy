/**
 * Unused-file detection (`_find_unused_components`,
 * app/states/state.py:533-554): a `.py` file is unused when no dependency
 * anywhere in the graph names it, either as a module file or as a
 * package's `__init__.py`; package markers themselves are never reported.
 */
module Unused {
  import opened Strings
  import opened Sorting
  import opened Paths
  import opened Walker
  import opened Graph

  const PackageMarker: string := "__init__.py"

  /** `dep.replace(".", os.sep) + ".py"`: the dependency read as a module file. */
  function ModuleCandidate(dep: string): string
  {
    Replace(dep, '.', Sep) + PythonExt
  }

  /** `os.path.join(dep.replace(".", os.sep), "__init__.py")`: the dependency read as a package. */
  function PackageCandidate(dep: string): string
  {
    JoinPath(Replace(dep, '.', Sep), PackageMarker)
  }

  /** Dependency `d` names path `p`, as a module file or as a package marker. */
  predicate Names(d: string, p: string)
  {
    p == ModuleCandidate(d) || p == PackageCandidate(d)
  }

  /** Some dependency in the graph names `p`. */
  predicate Referenced(p: string, g: DependencyGraph)
  {
    exists d :: d in AllDeps(g) && Names(d, p)
  }

  /** Every path some dependency in `ds` names. */
  function Candidates(ds: seq<string>): set<string>
  {
    (set d | d in ds :: ModuleCandidate(d)) + (set d | d in ds :: PackageCandidate(d))
  }

  lemma CandidatesMembers(ds: seq<string>, p: string)
    ensures p in Candidates(ds) <==> exists d :: d in ds && Names(d, p)
  {
    if p in Candidates(ds) {
      var d :| d in ds && (p == ModuleCandidate(d) || p == PackageCandidate(d));
      assert Names(d, p);
    }
  }

  /** Taking one more dependency adds exactly the two paths it names. */
  lemma CandidatesSnoc(ds: seq<string>, x: string)
    ensures Candidates(ds + [x]) == Candidates(ds) + {ModuleCandidate(x), PackageCandidate(x)}
  {
    assert forall d :: d in ds + [x] <==> d in ds || d == x;
  }

  lemma KeepDistributes(known: set<string>, a: set<string>, b: set<string>)
    ensures known * (a + b) == known * a + known * b
  {
  }

  /** The known files that some dependency in `deps` names (`all_imported_modules`). */
  method ImportedFiles(deps: seq<string>, known: set<string>) returns (imported: set<string>)
    ensures forall p :: p in imported <==> p in known && exists d :: d in deps && Names(d, p)
  {
    imported := {};
    var i := 0;
    while i < |deps|
      invariant 0 <= i <= |deps|
      invariant imported == known * Candidates(deps[..i])
    {
      // the module reading and the package reading, each kept when it is a known file
      var named := {ModuleCandidate(deps[i]), PackageCandidate(deps[i])};
      CandidatesSnoc(deps[..i], deps[i]);
      assert deps[..i + 1] == deps[..i] + [deps[i]];
      KeepDistributes(known, Candidates(deps[..i]), named);
      imported := imported + known * named;
      i := i + 1;
    }
    assert deps[..i] == deps;
    forall p ensures p in imported <==> p in known && exists d :: d in deps && Names(d, p) {
      CandidatesMembers(deps, p);
    }
  }

  /**
   * The `.py` paths that no dependency references, without package
   * markers, each once and in ascending order (`sorted(list(unused))`).
   */
  method FindUnused(records: seq<FileRecord>, g: DependencyGraph) returns (unused: seq<string>)
    ensures StrictlySorted(unused, LexLess)
    ensures forall p :: p in unused <==>
      (p in PyPaths(records) && !Referenced(p, g) && !EndsWith(p, PackageMarker))
  {
    var pyFiles := set p | p in PyPaths(records);
    var imported := ImportedFiles(AllDeps(g), pyFiles);
    var remaining := Filter(PyPaths(records), p => p !in imported && !EndsWith(p, PackageMarker));
    LexLessIsStrictTotalOrder();
    unused := SortDedup(remaining, LexLess);
  }
}

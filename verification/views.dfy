/**
 * The derived views the dashboard reads from the latest snapshot and the
 * navigation state (app/states/state.py:100-109, 171-191, 205-220):
 * breadcrumb navigation, the filtered unused-file list, the extension
 * choices and the dependency graph's node and edge lists.
 */
module Views {
  import opened Strings
  import opened Sorting
  import opened Paths
  import opened OrderedDict
  import opened Graph
  import opened Tree

  /** `add_to_path`: descend into a child folder. */
  function AddToPath(path: seq<string>, folder: string): (r: seq<string>)
    ensures |r| == |path| + 1 && r[..|path|] == path && r[|path|] == folder
  {
    path + [folder]
  }

  /** Python's `s[:stop]` for any integer `stop` (a negative stop counts from the end). */
  function SliceTo<T>(s: seq<T>, stop: int): (r: seq<T>)
    ensures |r| <= |s| && r == s[..|r|]
    ensures 0 <= stop ==> |r| == if stop < |s| then stop else |s|
    ensures stop < 0 ==> |r| == if -stop < |s| then |s| + stop else 0
  {
    if 0 <= stop then
      if stop < |s| then s[..stop] else s
    else if -stop < |s| then s[..|s| + stop]
    else []
  }

  /** `set_path_to_index`: -1 returns to the root, any other index keeps the path up to and including that segment. */
  function SetPathToIndex(path: seq<string>, index: int): (r: seq<string>)
    ensures index == -1 ==> r == []
    ensures 0 <= index < |path| ==> r == path[..index + 1]
    ensures index >= |path| ==> r == path
    ensures |r| <= |path| && r == path[..|r|]
  {
    if index == -1 then [] else SliceTo(path, index + 1)
  }

  /** Clicking the breadcrumb of the folder just left undoes `add_to_path`. */
  lemma BreadcrumbUndoesDescend(path: seq<string>, folder: string)
    ensures SetPathToIndex(AddToPath(path, folder), |path| - 1) == path
  {
  }

  /** Clicking the same breadcrumb twice changes nothing the second time. */
  lemma SetPathToIndexIdempotent(path: seq<string>, index: int)
    requires index >= -1
    ensures SetPathToIndex(SetPathToIndex(path, index), index) == SetPathToIndex(path, index)
  {
  }

  /** A path that leads to a real folder keeps doing so when it is cut short. */
  lemma NavigatePrefix(t: FolderNode, path: seq<string>, k: nat)
    requires k <= |path|
    requires Navigate(t, path).Some?
    ensures Navigate(t, path[..k]).Some?
  {
    NavigateAppend(t, path[..k], path[k..]);
    assert path[..k] + path[k..] == path;
  }

  /** After clicking a breadcrumb of a real folder's path, the view is a real folder again (never the placeholder by accident). */
  lemma BreadcrumbStaysInTree(t: FolderNode, path: seq<string>, index: int)
    requires Navigate(t, path).Some?
    ensures Navigate(t, SetPathToIndex(path, index)).Some?
    ensures CurrentView(t, SetPathToIndex(path, index)) == Navigate(t, SetPathToIndex(path, index)).value
  {
    NavigatePrefix(t, path, |SetPathToIndex(path, index)|);
  }

  /** An unused file passes the search box and the extension filter. */
  predicate MatchesFilters(u: string, query: string, extension: string)
  {
    && (query == "" || Contains(Lower(u), Lower(query)))
    && (extension == "" || EndsWith(u, extension))
  }

  /** `filtered_unused_components`: the case-insensitive search, then the extension filter, each applied only when set. */
  function FilteredUnused(unused: seq<string>, query: string, extension: string): (r: seq<string>)
    ensures Subsequence(r, unused)
    ensures forall u :: u in r <==> u in unused && MatchesFilters(u, query, extension)
  {
    var searched := if query == "" then unused else Filter(unused, u => Contains(Lower(u), Lower(query)));
    assert Subsequence(searched, unused) by {
      if query == "" { SubsequenceReflexive(unused); }
    }
    var r := if extension == "" then searched else Filter(searched, u => EndsWith(u, extension));
    assert Subsequence(r, searched) by {
      if extension == "" { SubsequenceReflexive(searched); }
    }
    SubsequenceTransitive(r, searched, unused);
    r
  }

  lemma {:induction false} SubsequenceReflexive<T>(s: seq<T>)
    ensures Subsequence(s, s)
    decreases |s|
  {
    if |s| > 0 {
      SubsequenceReflexive(s[1..]);
    }
  }

  /** The non-empty extensions of the given paths, in order, with repeats. */
  function ExtensionsOf(paths: seq<string>): seq<string>
  {
    if |paths| == 0 then []
    else
      var ext := SplitExt(paths[|paths| - 1]).1;
      ExtensionsOf(paths[..|paths| - 1]) + (if ext == "" then [] else [ext])
  }

  lemma {:induction false} ExtensionsOfMembers(paths: seq<string>)
    ensures forall e :: e in ExtensionsOf(paths) <==> e != "" && exists u :: u in paths && SplitExt(u).1 == e
    decreases |paths|
  {
    if |paths| > 0 {
      var init := paths[..|paths| - 1];
      ExtensionsOfMembers(init);
      assert forall u :: u in paths <==> u in init || u == paths[|paths| - 1];
    }
  }

  /** `unique_extensions`: the sorted, duplicate-free extensions of the unused files, blank ones left out. */
  function UniqueExtensions(unused: seq<string>): (r: seq<string>)
    ensures StrictlySorted(r, LexLess)
    ensures forall e :: e in r <==> e != "" && exists u :: u in unused && SplitExt(u).1 == e
    ensures forall e :: e in r ==> e[0] == '.' && Sep !in e
  {
    LexLessIsStrictTotalOrder();
    ExtensionsOfMembers(unused);
    SortDedup(ExtensionsOf(unused), LexLess)
  }

  /** Every extension offered in the filter drop-down keeps at least one unused file in the list. */
  lemma ExtensionChoiceNeverEmpty(unused: seq<string>, e: string)
    requires e in UniqueExtensions(unused)
    ensures |FilteredUnused(unused, "", e)| > 0
  {
    var u :| u in unused && SplitExt(u).1 == e;
    var split := SplitExt(u);
    assert u == split.0 + split.1;
    assert u[|u| - |e|..] == e;
    assert u in FilteredUnused(unused, "", e);
  }

  /** Clearing both filters shows the whole list. */
  lemma NoFiltersShowsAll(unused: seq<string>)
    ensures FilteredUnused(unused, "", "") == unused
  {
  }

  const FileKind: string := "file"

  datatype GraphNode = GraphNode(id: string, kind: string)

  datatype GraphEdge = GraphEdge(source: string, target: string)

  datatype GraphData = GraphData(nodes: seq<GraphNode>, edges: seq<GraphEdge>)

  /** Every `(source, target)` pair of the graph, in the graph's order. */
  function EdgePairs(g: DependencyGraph): seq<(string, string)>
  {
    if |g| == 0 then []
    else
      var last := g[|g| - 1];
      EdgePairs(g[..|g| - 1]) + seq(|last.value|, k requires 0 <= k < |last.value| => (last.key, last.value[k]))
  }

  lemma {:induction false} EdgePairsMembers(g: DependencyGraph)
    ensures forall s, t :: (s, t) in EdgePairs(g) <==> exists i :: 0 <= i < |g| && g[i].key == s && t in g[i].value
    decreases |g|
  {
    if |g| > 0 {
      var init := g[..|g| - 1];
      var last := g[|g| - 1];
      EdgePairsMembers(init);
      var tail := seq(|last.value|, k requires 0 <= k < |last.value| => (last.key, last.value[k]));
      assert forall s, t :: (s, t) in tail <==> s == last.key && t in last.value by {
        forall s, t | s == last.key && t in last.value ensures (s, t) in tail {
          var k :| 0 <= k < |last.value| && last.value[k] == t;
          assert tail[k] == (s, t);
        }
      }
      forall s, t ensures (s, t) in EdgePairs(g) <==> exists i :: 0 <= i < |g| && g[i].key == s && t in g[i].value {
        if (exists i :: 0 <= i < |g| && g[i].key == s && t in g[i].value) {
          var i :| 0 <= i < |g| && g[i].key == s && t in g[i].value;
          if i < |g| - 1 {
            assert init[i] == g[i];
          }
        }
        if (exists i :: 0 <= i < |init| && init[i].key == s && t in init[i].value) {
          var i :| 0 <= i < |init| && init[i].key == s && t in init[i].value;
          assert g[i] == init[i];
        }
      }
    }
  }

  /** The node ids: every file that has an entry and every module some file imports, sorted, once each. */
  function NodeIds(g: DependencyGraph): (ids: seq<string>)
    ensures StrictlySorted(ids, LexLess)
    ensures forall x :: x in ids <==> x in Keys(g) || x in AllDeps(g)
  {
    LexLessIsStrictTotalOrder();
    SortDedup(Keys(g) + AllDeps(g), LexLess)
  }

  /** The edges: every (file, imported module) pair, sorted by file then module, once each. */
  function EdgeList(g: DependencyGraph): (es: seq<(string, string)>)
    ensures StrictlySorted(es, PairLess)
    ensures forall s, t :: (s, t) in es <==> exists i :: 0 <= i < |g| && g[i].key == s && t in g[i].value
  {
    PairLessIsStrictTotalOrder();
    EdgePairsMembers(g);
    SortDedup(EdgePairs(g), PairLess)
  }

  /** `dependency_graph_data`: the node list (every node of kind "file") and the edge list. */
  function GraphView(g: DependencyGraph): (r: GraphData)
    ensures |r.nodes| == |NodeIds(g)| && |r.edges| == |EdgeList(g)|
    ensures forall i :: 0 <= i < |r.nodes| ==> r.nodes[i].id == NodeIds(g)[i] && r.nodes[i].kind == FileKind
    ensures forall i :: 0 <= i < |r.edges| ==> r.edges[i] == GraphEdge(EdgeList(g)[i].0, EdgeList(g)[i].1)
  {
    var ids := NodeIds(g);
    var es := EdgeList(g);
    GraphData(
      seq(|ids|, i requires 0 <= i < |ids| => GraphNode(ids[i], FileKind)),
      seq(|es|, i requires 0 <= i < |es| => GraphEdge(es[i].0, es[i].1)))
  }

  /** Both ends of every edge are nodes of the view, and every edge starts at a file with an entry. */
  lemma EdgesJoinNodes(g: DependencyGraph, i: nat)
    requires i < |GraphView(g).edges|
    ensures var e := GraphView(g).edges[i];
      && e.source in Keys(g)
      && e.source in NodeIds(g)
      && e.target in NodeIds(g)
  {
    var pair := EdgeList(g)[i];
    assert pair in EdgeList(g);
    var j :| 0 <= j < |g| && g[j].key == pair.0 && pair.1 in g[j].value;
    assert Keys(g)[j] == pair.0;
    assert pair.1 in AllDeps(g);
  }
}

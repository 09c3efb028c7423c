/**
 * Import extraction for Python files (`_parse_python_imports` and
 * `_extract_file_dependencies`, app/states/state.py:467-510). Reading the
 * file and `ast.parse` are outside the model: a file's source is given as
 * the import nodes `ast.walk` visits, in visiting order, or as the failure
 * that stopped reading or parsing it.
 */
module Imports {
  import opened Wrappers
  import opened Strings
  import opened Sorting
  import opened Paths

  /** `import a.b, c` lists alias names; `from ..pkg.mod import x` has a module (absent for `from . import x`) and a level (the leading dots). */
  datatype ImportNode =
    | Import(names: seq<string>)
    | ImportFrom(moduleName: Option<ModuleName>, level: nat)

  datatype Source =
    | Parsed(nodes: seq<ImportNode>)
    | Unparsable   // ast.parse raised SyntaxError
    | Unreadable   // open/read raised IOError

  /**
   * The directory being scanned, as absolute segments. `CurrentDir` is the
   * default scan path "." (resolved against the process's working
   * directory `cwd`); `Absolute` is the upload directory: the extracted
   * archive, or the temporary directory holding individually uploaded files.
   */
  datatype ScanRoot = CurrentDir(cwd: seq<Name>) | Absolute(segments: seq<Name>)

  /** The directory segments of a relative file path: `os.path.dirname`, split. */
  function DirOf(filePath: string): seq<string>
  {
    var segs := Split(filePath, Sep);
    segs[..|segs| - 1]
  }

  /**
   * The module identifier of `from <dots><module> import ...` with `level`
   * dots in the file at `filePath` (relative to the scan root): start at the
   * file's directory, take `level - 1` more `dirname` steps, append the
   * module's dotted parts, make the result relative to the scan root and
   * turn separators into dots.
   */
  function ResolveRelative(filePath: string, base: ScanRoot, name: ModuleName, level: nat): string
    requires level > 0
  {
    var parts := Split(name, '.');
    match base
    case CurrentDir(cwd) =>
      // The file is "./<dir>/<name>"; dirname walks "./<dir>" up to "." and then to "",
      // and abspath reads both "." and "" as the working directory.
      DottedIdentifier(RelPath(cwd + Ascend(DirOf(filePath), level - 1) + parts, cwd))
    case Absolute(root) =>
      // dirname stops at "/"; above the scan root relpath produces ".." segments.
      DottedIdentifier(RelPath(Ascend(root + DirOf(filePath), level - 1) + parts, root))
  }

  lemma SplitAvoids(s: string, sep: char, c: char)
    requires c !in s
    ensures forall k :: 0 <= k < |Split(s, sep)| ==> c !in Split(s, sep)[k]
    decreases |s|
  {
    var i := IndexOf(s, sep);
    if i < |s| {
      assert forall j :: 0 <= j < i ==> s[..i][j] == s[j];
      var rest := s[i + 1..];
      assert c !in rest by {
        forall j | 0 <= j < |rest| ensures rest[j] != c {
          assert rest[j] == s[i + 1 + j];
        }
      }
      SplitAvoids(s[i + 1..], sep, c);
    }
  }

  /** `os.path.dirname` of a file path, as segments, contains no separator. */
  lemma DirOfHasNoSeparator(filePath: string)
    ensures forall k :: 0 <= k < |DirOf(filePath)| ==> Sep !in DirOf(filePath)[k]
  {
  }

  /** Turning segments with no separator into a dotted identifier is joining them with dots. */
  lemma DottedIdentifierJoins(rel: seq<string>)
    requires |rel| > 0
    requires forall k :: 0 <= k < |rel| ==> Sep !in rel[k]
    ensures DottedIdentifier(rel) == JoinWith(rel, '.')
  {
    ReplaceJoin(rel, Sep, '.');
  }

  /**
   * A relative import that stays inside the scan root resolves to the
   * importing file's directory after exactly `level - 1` parent steps,
   * followed by the module's parts, joined with dots.
   */
  lemma ResolveWithinRoot(filePath: string, base: ScanRoot, name: ModuleName, level: nat)
    requires level > 0
    requires level - 1 <= |DirOf(filePath)|
    ensures var dir := DirOf(filePath);
      ResolveRelative(filePath, base, name, level)
        == JoinWith(dir[..|dir| - (level - 1)] + Split(name, '.'), '.')
  {
    match base
    case CurrentDir(cwd) => ResolveWithinCurrentDir(filePath, cwd, name, level);
    case Absolute(root) => ResolveWithinAbsolute(filePath, root, name, level);
  }

  lemma ResolveWithinCurrentDir(filePath: string, cwd: seq<Name>, name: ModuleName, level: nat)
    requires level > 0
    requires level - 1 <= |DirOf(filePath)|
    ensures var dir := DirOf(filePath);
      ResolveRelative(filePath, CurrentDir(cwd), name, level)
        == JoinWith(dir[..|dir| - (level - 1)] + Split(name, '.'), '.')
  {
    var dir := DirOf(filePath);
    AscendDropsSegments(dir, level - 1);
    assert cwd + Ascend(dir, level - 1) + Split(name, '.')
      == cwd + (dir[..|dir| - (level - 1)] + Split(name, '.'));
    DirOfHasNoSeparator(filePath);
    DottedBelow(cwd, dir[..|dir| - (level - 1)], name);
  }

  /** `ResolveRelative` for an upload directory, once the climbed path is known. */
  lemma ResolveAbsoluteVia(filePath: string, root: seq<Name>, name: ModuleName, level: nat, path: seq<string>)
    requires level > 0
    requires Ascend(root + DirOf(filePath), level - 1) + Split(name, '.') == path
    ensures ResolveRelative(filePath, Absolute(root), name, level) == DottedIdentifier(RelPath(path, root))
  {
  }

  lemma ResolveWithinAbsolute(filePath: string, root: seq<Name>, name: ModuleName, level: nat)
    requires level > 0
    requires level - 1 <= |DirOf(filePath)|
    ensures var dir := DirOf(filePath);
      ResolveRelative(filePath, Absolute(root), name, level)
        == JoinWith(dir[..|dir| - (level - 1)] + Split(name, '.'), '.')
  {
    var dir := DirOf(filePath);
    var rel := dir[..|dir| - (level - 1)] + Split(name, '.');
    AscendBelowRoot(root, dir, level - 1);
    ResolveAbsoluteVia(filePath, root, name, level, root + rel);
    DirOfHasNoSeparator(filePath);
    DottedBelow(root, dir[..|dir| - (level - 1)], name);
  }

  /** Parent steps that stay below `root` only drop segments of `dir`. */
  lemma AscendBelowRoot(root: seq<string>, dir: seq<string>, n: nat)
    requires n <= |dir|
    ensures Ascend(root + dir, n) == root + dir[..|dir| - n]
  {
    AscendDropsSegments(root + dir, n);
    assert (root + dir)[..|root + dir| - n] == root + dir[..|dir| - n];
  }

  /** Segments below `base`, then a module's parts, read relative to `base` as a dotted name. */
  lemma DottedBelow(base: seq<string>, kept: seq<string>, name: ModuleName)
    requires forall k :: 0 <= k < |kept| ==> Sep !in kept[k]
    ensures DottedIdentifier(RelPath(base + (kept + Split(name, '.')), base))
      == JoinWith(kept + Split(name, '.'), '.')
  {
    var rel := kept + Split(name, '.');
    RelPathBelow(base, rel);
    SplitAvoids(name, '.', Sep);
    assert forall k :: 0 <= k < |rel| ==> Sep !in rel[k] by {
      forall k | 0 <= k < |rel| ensures Sep !in rel[k] {
        if k >= |kept| {
          assert rel[k] == Split(name, '.')[k - |kept|];
        }
      }
    }
    DottedIdentifierJoins(rel);
  }

  /**
   * Scanning ".": dots beyond the scan root cannot climb above it, so such
   * an import resolves to the module name itself.
   */
  lemma ResolveSaturatesAtCurrentDir(filePath: string, cwd: seq<Name>, name: ModuleName, level: nat)
    requires level > 0
    requires level - 1 > |DirOf(filePath)|
    ensures ResolveRelative(filePath, CurrentDir(cwd), name, level) == name
  {
    var parts := Split(name, '.');
    AscendDropsSegments(DirOf(filePath), level - 1);
    assert cwd + Ascend(DirOf(filePath), level - 1) + parts == cwd + parts;
    RelPathBelow(cwd, parts);
    SplitAvoids(name, '.', Sep);
    DottedIdentifierJoins(parts);
    JoinSplit(name, '.');
  }

  /**
   * Scanning an upload: one dot too many climbs one level above the upload
   * directory, and `relpath` records that step as a `..` segment, so the
   * reference reads `...` followed by the module name (`../m` with the
   * separator turned into a dot). The module's first part must not be the
   * upload directory's own name; otherwise the path lands back inside it.
   */
  lemma ResolveAboveAbsolute(filePath: string, root: seq<Name>, name: ModuleName, level: nat)
    requires |root| > 0
    requires level == |DirOf(filePath)| + 2
    requires Split(name, '.')[0] != root[|root| - 1]
    ensures ResolveRelative(filePath, Absolute(root), name, level) == "..." + name
  {
    var dir := DirOf(filePath);
    var parts := Split(name, '.');
    var up := root[..|root| - 1];
    AscendDropsSegments(root + dir, level - 1);
    assert (root + dir)[..|root + dir| - (level - 1)] == up;
    ResolveAbsoluteVia(filePath, root, name, level, up + parts);
    assert root == up + [root[|root| - 1]];
    RelPathOneAbove(up, root[|root| - 1], parts);
    DottedAbove(name);
  }

  /** A path that leaves `up + [last]` by its last segment is one `..` away from it. */
  lemma RelPathOneAbove(up: seq<string>, last: string, parts: seq<string>)
    requires |parts| > 0 && parts[0] != last
    ensures RelPath(up + parts, up + [last]) == [".."] + parts
  {
    var path, start := up + parts, up + [last];
    var c := CommonPrefixLength(path, start);
    assert path[..|up|] == start[..|up|];
    assert path[|up|] == parts[0];
    assert c == |up|;
    assert path[c..] == parts;
  }

  /** The parts of a module name behind one `..`, with separators turned into dots. */
  lemma DottedAbove(name: ModuleName)
    ensures DottedIdentifier([".."] + Split(name, '.')) == "..." + name
  {
    var parts := Split(name, '.');
    SplitAvoids(name, '.', Sep);
    DottedIdentifierJoins([".."] + parts);
    JoinCons("..", parts, '.');
    JoinSplit(name, '.');
  }

  /** The module references one import node contributes. */
  function NodeRefs(node: ImportNode, filePath: string, base: ScanRoot): seq<string>
  {
    match node
    case Import(names) => names
    case ImportFrom(None, _) => []
    case ImportFrom(Some(m), level) =>
      if level > 0 then [ResolveRelative(filePath, base, m, level)] else [m]
  }

  function CollectRefs(nodes: seq<ImportNode>, filePath: string, base: ScanRoot): seq<string>
  {
    if |nodes| == 0 then [] else NodeRefs(nodes[0], filePath, base) + CollectRefs(nodes[1..], filePath, base)
  }

  lemma {:induction false} CollectRefsMembers(nodes: seq<ImportNode>, filePath: string, base: ScanRoot, x: string)
    ensures x in CollectRefs(nodes, filePath, base)
      <==> exists i :: 0 <= i < |nodes| && x in NodeRefs(nodes[i], filePath, base)
    decreases |nodes|
  {
    if |nodes| > 0 {
      CollectRefsMembers(nodes[1..], filePath, base, x);
      if x in CollectRefs(nodes[1..], filePath, base) {
        var i :| 0 <= i < |nodes[1..]| && x in NodeRefs(nodes[1..][i], filePath, base);
        assert x in NodeRefs(nodes[i + 1], filePath, base);
      }
      if exists i :: 0 <= i < |nodes| && x in NodeRefs(nodes[i], filePath, base) {
        var i :| 0 <= i < |nodes| && x in NodeRefs(nodes[i], filePath, base);
        if i > 0 {
          assert nodes[1..][i - 1] == nodes[i];
        }
      }
    }
  }

  lemma {:induction false} CollectRefsAppend(nodes: seq<ImportNode>, more: seq<ImportNode>, filePath: string, base: ScanRoot)
    ensures CollectRefs(nodes + more, filePath, base)
      == CollectRefs(nodes, filePath, base) + CollectRefs(more, filePath, base)
    decreases |nodes|
  {
    if |nodes| == 0 {
      assert nodes + more == more;
    } else {
      assert (nodes + more)[0] == nodes[0];
      assert (nodes + more)[1..] == nodes[1..] + more;
      CollectRefsAppend(nodes[1..], more, filePath, base);
    }
  }

  /**
   * `_parse_python_imports` on a parsed file: each reference once. Python
   * returns `list(set)`, whose order depends on string hashing; the model
   * keeps the order in which the references were found.
   */
  function ParseImports(nodes: seq<ImportNode>, filePath: string, base: ScanRoot): (r: seq<string>)
    ensures Distinct(r)
    ensures forall x :: x in r <==> exists i :: 0 <= i < |nodes| && x in NodeRefs(nodes[i], filePath, base)
  {
    var refs := CollectRefs(nodes, filePath, base);
    forall x ensures x in refs <==> exists i :: 0 <= i < |nodes| && x in NodeRefs(nodes[i], filePath, base) {
      CollectRefsMembers(nodes, filePath, base, x);
    }
    Dedup(refs)
  }

  /** `import a.b` contributes `a.b` and `from a.b import x` contributes `a.b`, unchanged. */
  lemma AbsoluteImportsKept(nodes: seq<ImportNode>, filePath: string, base: ScanRoot, i: nat)
    requires i < |nodes|
    ensures nodes[i].Import? ==> forall n :: n in nodes[i].names ==> n in ParseImports(nodes, filePath, base)
    ensures nodes[i].ImportFrom? && nodes[i].moduleName.Some? && nodes[i].level == 0
      ==> nodes[i].moduleName.value in ParseImports(nodes, filePath, base)
  {
  }

  /** `from . import x` (no module) contributes nothing. */
  lemma ImportFromWithoutModuleIgnored(nodes: seq<ImportNode>, level: nat, filePath: string, base: ScanRoot)
    ensures ParseImports(nodes + [ImportFrom(None, level)], filePath, base) == ParseImports(nodes, filePath, base)
  {
    CollectRefsAppend(nodes, [ImportFrom(None, level)], filePath, base);
    assert CollectRefs([ImportFrom(None, level)], filePath, base) == [];
    assert CollectRefs(nodes, filePath, base) + [] == CollectRefs(nodes, filePath, base);
  }

  /**
   * `_extract_file_dependencies`: an unreadable file, an unparsable file and
   * a file that is not `.py` have no dependencies.
   */
  function ExtractDependencies(filePath: string, ext: string, source: Source, base: ScanRoot): (deps: seq<string>)
    ensures Distinct(deps)
    ensures (source.Unreadable? || source.Unparsable? || ext != ".py") ==> deps == []
    ensures source.Parsed? && ext == ".py" ==> deps == ParseImports(source.nodes, filePath, base)
  {
    match source
    case Unreadable => []
    case Unparsable => []
    case Parsed(nodes) => if ext == ".py" then ParseImports(nodes, filePath, base) else []
  }
}

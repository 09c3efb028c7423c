# INDU intelligence scan core in Dafny

A Dafny model of the scan-analysis core of the INDU intelligence codebase
dashboard (`app/states/state.py`):

- A scan walks a project directory. It skips the ignored directories
  (`.git`, `__pycache__`, `node_modules`, `.web`, `assets`) and the ignored
  file `.DS_Store`.
- For each remaining file it records the relative path, size, line count and
  extension. The extension is `"Other"` when the file has none.
- It totals sizes and lines and keeps a per-extension histogram.
- It builds a dependency graph from the imports of every `.py` file.
  Relative imports are resolved against the scanned directory.
- It applies one layering rule: a path containing `components` must not
  import a module containing `states`.
- It lists the `.py` modules that nothing imports, leaving out package
  markers (`__init__.py`).
- It builds a folder tree whose counts say how many files lie below each
  folder.

The dashboard then reads derived views: the folder at the current
breadcrumb path, the unused list filtered by a search text and an
extension, the extension choices, and the graph's sorted node and edge
lists.

Modules, in dependency order:

| file | module | models |
|---|---|---|
| wrappers.dfy | Wrappers | `Option` and `Result` |
| strings.dfy | Strings | Python `str` operations the core uses: `split`, `join`, `replace` of a character, `in`, `startswith`/`endswith`, ASCII `lower`, `<` |
| sorting.dfy | Sorting | `list(set(xs))`, `sorted(...)` over a strict total order, list comprehensions with a condition |
| paths.dfy | Paths | POSIX `os.path`: `splitext`, `join`, `dirname`, `relpath`, `normpath(...).replace(os.sep, ".")` |
| ordered_dict.dfy | OrderedDict | insertion-ordered `dict[str, V]` |
| walker.dfy | Walker | the `os.walk` loop and the metric totals |
| imports.dfy | Imports | `_parse_python_imports`, `_extract_file_dependencies` |
| graph.dfy | Graph | `_build_dependency_graph` |
| architecture.dfy | Architecture | `_validate_architecture` |
| unused.dfy | Unused | `_find_unused_components` |
| tree.dfy | Tree | the folder tree, `_count_files_recursively`, `current_view` |
| views.dfy | Views | `add_to_path`, `set_path_to_index`, `filtered_unused_components`, `unique_extensions`, `dependency_graph_data` |
| scan.dfy | Scan | `run_scan`, the snapshot and the session state it updates |
| examples.dfy | Scenarios | small concrete projects worked through the model |

Modelling choices:

- **The file system is an input.** A directory is a `Dir` value: a name,
  its subdirectories and its files, each in listing order. The walk is
  top-down, like `os.walk`.
  - A file's size is `None` when `os.path.getsize` raised
    `FileNotFoundError`. Such a file is skipped.
  - A file's line count is given. It is 0 when the file could not be read.
- **Source files are parsed inputs.**
  - A file's content is the sequence of import nodes `ast.walk` visits, or
    the failure that stopped it: unreadable or unparsable.
  - `ImportFrom` carries an optional dotted module name and a level.
- **The scan root takes one of two forms.**
  - `CurrentDir(cwd)` is the default scan path `"."`. There, `dirname`
    steps above the root stop at `""`, which `abspath` reads as the working
    directory.
  - `Absolute(segments)` is the upload directory: the extracted archive,
    or the temporary directory holding individually uploaded files. There,
    steps above the root produce `..` segments through `relpath`.
- **Paths use `/` as `os.sep`.** Directory-entry names are non-empty, free
  of `/`, and not `.` or `..` (type `Paths.Name`).
- **Dicts are insertion-ordered association lists.** Assignment replaces a
  value in place or appends a new key.
- **Ordering of `list(set(...))`.** In `_parse_python_imports` Python's
  order depends on string hashing. The model fixes it as the order of first
  discovery. Distinctness and membership of dependency lists hold for any
  order. The stored lists, and so the order of one file's violations, follow
  the fixed discovery order.

## Model

| member | source | states |
|---|---|---|
| Walker.ExtensionOf | app/states/state.py:400-401 | the recorded extension is never empty: it is "Other" or a dot-led suffix of the file name |
| Walker.ExtensionOfName | app/states/state.py:400-401 | a file name is recorded as "Other" exactly when no character other than a dot comes before one of its dots (so `README`, `.bashrc` and `..` are "Other") |
| Walker.ExtensionOfStem | app/states/state.py:400-401 | a name made of a stem with a non-dot character followed by a dotted suffix without further dots is recorded with exactly that suffix (`main.py` gives `.py`) |
| Walker.ScanRecordsGood | app/states/state.py:378-386 | every record has a path made of directory-entry names, with no ignored directory on it and no ignored file name at its end, and a non-empty extension |
| Walker.WalkIncludesFiles | app/states/state.py:383-406 | every file of a walked directory that is not ignored and whose size could be read is recorded at `dir/name` |
| Walker.WalkIncludesSubdir | app/states/state.py:381-382 | every record found below a non-ignored subdirectory belongs to its parent's walk |
| Walker.IgnoredSubdirSkipped | app/states/state.py:382 | an ignored subdirectory contributes no records, whatever it holds |
| Walker.Aggregate | app/states/state.py:372-410 | the file count is the number of records, the size and line totals are their sums, and the histogram has one key per extension seen, counts each extension's records, and sums to the file count |
| OrderedDict.IncrementAddsOne | app/states/state.py:410 | `d[ext] = d.get(ext, 0) + 1` raises the histogram's total by exactly one |
| OrderedDict.PutGet | app/states/state.py:410 | after `d[k] = v`, `k` maps to `v` and every other key keeps its value |
| Paths.SplitExt | app/states/state.py:400 | `splitext` splits a path into stem plus extension, and the extension is empty or starts with its only dot after the last separator |
| Paths.SplitExtPath | app/states/state.py:210 | `splitext` of a path with a directory part splits its last component only: the stem keeps the directory, the extension is the component's (`pkg/main.py` gives `.py`, and a dot in a directory name is never an extension) |
| Paths.SplitExtName | app/states/state.py:400 | for a name without separators the extension is non-empty exactly when a non-dot character precedes some dot; with the contract of `SplitExt` this makes it the suffix from the last dot |
| Paths.RelPathRoundTrip | app/states/state.py:485-488 | resolving a relative path made by `relpath` from its start directory gives back the original path |
| Imports.ResolveWithinRoot | app/states/state.py:478-491 | `from <k dots>m import x` in a file whose directory has at least k-1 segments resolves to that directory with its last k-1 segments dropped, followed by m's parts, joined with dots, for both kinds of scan root |
| Imports.ResolveSaturatesAtCurrentDir | app/states/state.py:481-491 | when scanning ".", dots that would climb above the root resolve to the module name itself |
| Imports.ResolveAboveAbsolute | app/states/state.py:481-491 | when scanning an upload directory, one dot too many climbs above it and `relpath`'s `../m` becomes the reference `...m` |
| Imports.ParseImports | app/states/state.py:467-496 | the result lists each reference once, and a string is listed exactly when some import node contributes it |
| Imports.AbsoluteImportsKept | app/states/state.py:473-476 | every name of `import a.b` and the module of `from a.b import x` appear unchanged |
| Imports.ImportFromWithoutModuleIgnored | app/states/state.py:477-478 | `from . import x`, which has no module, adds no reference |
| Imports.ExtractDependencies | app/states/state.py:498-510 | an unreadable file, an unparsable file and a file that is not `.py` have no dependencies; a parsed `.py` file has its parsed imports |
| Graph.PyPathsMembers | app/states/state.py:539-543 | the `.py` paths are exactly the paths of the records whose extension is `.py` |
| Graph.BuildGraph | app/states/state.py:512-520 | the keys are the `.py` paths in first-occurrence order, each once, and each key maps to that file's extracted dependencies |
| Architecture.ValidateArchitecture | app/states/state.py:522-531 | the messages are those of the violating (file, dependency) pairs, in graph key order and then dependency order |
| Architecture.MessagesOnePerPair | app/states/state.py:527-530 | exactly one message per violating pair, at the pair's position, in the fixed wording |
| Architecture.ViolatingPairsMembers | app/states/state.py:524-528 | a pair is reported exactly when the file contains "components", the dependency contains "states", and the file's entry lists the dependency |
| Architecture.NoComponentNoViolations | app/states/state.py:525 | a file whose path does not contain "components" yields no violation, whatever it imports |
| Unused.ImportedFiles | app/states/state.py:542-551 | a path is collected exactly when it is one of the known `.py` paths and some dependency names it, read either as a module file or as a package's `__init__.py` |
| Unused.FindUnused | app/states/state.py:533-554 | the result is strictly sorted, and a path is in it exactly when it is a `.py` record path, no dependency names it as a module file or as a package marker, and it is not an `__init__.py` |
| Sorting.SortDedup | app/states/state.py:554 | `sorted(list(set(xs)))` is strictly ascending and has exactly the elements of `xs` |
| Sorting.SortedUnique | app/states/state.py:554 | two strictly sorted lists with the same elements are equal, so the sorted outputs do not depend on set order |
| Sorting.Dedup | app/states/state.py:496 | `list(set(xs))` has no repeats and exactly the elements of `xs` |
| Tree.CountFiles | app/states/state.py:460-465 | after counting, every folder's count is its own files plus its children's counts, the root's count is the number of files in the tree, and no file is lost |
| Tree.CountedMeansLeaves | app/states/state.py:460-465 | in a counted tree every folder's count is the number of files anywhere below it |
| Tree.InsertAddsOneFile | app/states/state.py:435-449 | placing one record adds exactly one file to the tree |
| Tree.BuildTreeLeaves | app/states/state.py:433-449 | the built tree holds exactly one file per record |
| Tree.BuildTreeNamesDistinct | app/states/state.py:437-444 | folders are found or created, never duplicated: no folder has two child folders with the same name |
| Tree.BuildTreeHoldsRecords | app/states/state.py:433-449 | every record's file is listed in the folder that its path's directory segments lead to |
| Tree.ScanTreeCounts | app/states/state.py:433-450 | the published (counted) tree is named "root", counts all records at the root, is counted consistently, and has distinct child names |
| Tree.CountKeepsDistinct | app/states/state.py:460-465 | counting renames no folder, so distinct child names stay distinct at every level |
| Tree.ScanTreeShowsRecord | app/states/state.py:124-138 | in the published tree, the view of a record's directory lists that record's file |
| Tree.NavigateAppend | app/states/state.py:128-137 | following `p + q` is following `p`, then `q` from where `p` led |
| Tree.CurrentViewStopsAtMissingFolder | app/states/state.py:129-137 | once a segment names no child folder, the view is the empty "root" placeholder, whatever segments follow |
| Tree.NavigateCounted | app/states/state.py:124-138 | counting leaves every folder reachable by the same path |
| Views.AddToPath | app/states/state.py:100-102 | descending appends the folder's name to the path and keeps the rest |
| Views.SetPathToIndex | app/states/state.py:104-109 | -1 gives the root path; index i keeps the first i+1 segments; the result is always a prefix of the path, with Python's negative slicing for other indices |
| Views.BreadcrumbUndoesDescend | app/states/state.py:100-109 | clicking the breadcrumb of the folder just left undoes `add_to_path` |
| Views.SetPathToIndexIdempotent | app/states/state.py:104-109 | clicking the same breadcrumb twice changes nothing the second time |
| Views.BreadcrumbStaysInTree | app/states/state.py:104-138 | cutting a path that leads to a real folder still leads to a real folder, never to the placeholder |
| Views.FilteredUnused | app/states/state.py:213-220 | the result keeps the list's order and holds exactly the items that contain the query, ignoring ASCII case, and end with the extension, each filter applying only when set |
| Views.NoFiltersShowsAll | app/states/state.py:213-220 | with both filters cleared the whole list is shown |
| Views.UniqueExtensions | app/states/state.py:205-211 | the choices are strictly sorted, each starts with a dot, and an extension is offered exactly when some unused path has it |
| Views.ExtensionChoiceNeverEmpty | app/states/state.py:205-220 | filtering by any offered extension leaves at least one item |
| Views.NodeIds | app/states/state.py:177-185 | the node ids are strictly sorted and are exactly the graph's keys and dependency targets |
| Views.EdgeList | app/states/state.py:179-188 | the edges are sorted by source and then target, and (s, t) is an edge exactly when s's entry lists t |
| Views.EdgesJoinNodes | app/states/state.py:176-189 | every edge starts at a file with an entry, and both of its ends are nodes |
| Scan.TakeSnapshot | app/states/state.py:414-432 | the snapshot's totals, histogram, graph, violations and unused list are consistent with its file list, and each graph entry holds its file's dependencies |
| Scan.RunScan | app/states/state.py:356-458 | a missing scan path is an error; otherwise the new snapshot holds the walk's records, becomes the latest, and is appended to the history; the tree counts the snapshot's files, the path returns to the root, and the filters are kept |
| Scan.PublishKeepsInvariant | app/states/state.py:451-455 | publishing a consistent snapshot into any reachable session, one left by `clear_upload` included, gives the full invariant: the latest snapshot is the last of the history, and the tree is the latest snapshot's |
| Scan.InitialSessionInvariant | app/states/state.py:65-86 | the fresh dashboard, with no snapshot and the empty "root" tree, satisfies the session invariant |
| Scan.TreeRootMatchesLastScan | app/states/state.py:451-455 | in every reachable session the root of the browsable tree counts the files of the last scan taken, 0 before any |
| Scan.TreeRootMatchesTotal | app/states/state.py:144-146 | until `clear_upload` forgets the latest snapshot, the root of the browsable tree counts exactly the files the dashboard reports, 0 before the first scan |
| Scan.CleanupTempDir | app/states/state.py:276-283 | only the upload's directory field can change, and it is reset exactly when the directory existed and was removed |
| Scan.ClearUploadKeepsInvariant | app/states/state.py:292-296 | `clear_upload` keeps the reachable-session invariant, the history and the tree, and `total_files` drops to 0 |
| Scan.ClearUploadLeavesStaleTree | app/states/state.py:292-296 | after a scan that found files, `clear_upload` leaves a tree whose root still counts them while `total_files` reads 0, so the full invariant no longer holds |
| Scan.FilteredUnusedSorted | app/states/state.py:199-220 | whatever the filters, the list shown is sorted and lists only `.py` paths that are not package markers |
| Scan.SessionViewsOfLatest | app/states/state.py:193-211 | in every reachable session `architecture_violations` is the messages of the latest graph's violating pairs and `unique_extensions` is strictly sorted and offers exactly the non-empty extensions of unused paths; both are empty without a latest snapshot |
| Scan.GraphViewOf | app/states/state.py:175-176 | before the first scan the graph view has no nodes and no edges |
| Scenarios.ThreeFileTree | app/states/state.py:433-465 | for files `x`, `sub/y` and `sub/sub2/z` the root counts 3, `sub` counts 2, `sub/sub2` counts 1, and `sub2` is reachable only through `sub` |
| Scenarios.SiblingImportResolves | app/states/state.py:478-491 | `from .util import x` in `pkg/main.py` resolves to `pkg.util` under either kind of scan root |
| Scenarios.SiblingImportIsUsed | app/states/state.py:544-551 | that dependency marks `pkg/util.py` as used |
| Scenarios.ComponentImportingStateViolates | app/states/state.py:522-531 | a component file importing one state module yields exactly one message, in the fixed wording |
| Scenarios.OnlyIgnoredDirectory | app/states/state.py:381-382 | a project that holds only an ignored directory yields no records |
| Scenarios.EmptyScan | app/states/state.py:372-432 | a consistent snapshot of no records has zero totals, no histogram entries, an empty graph, no violations and nothing unused, and its tree counts 0 |

## Left out

- `handle_upload` and archive extraction: these are file-system side
  effects outside the analysis. The extracted directory they leave is the
  `uploadedRoot` field of the session. `_cleanup_temp_dir`, and through it
  `on_app_load`, is modelled by `Scan.CleanupTempDir`, with the outcome of
  the removal (`os.path.exists` and `shutil.rmtree`) as a parameter.
  `clear_upload` is `Scan.ClearUpload`; its reset of `uploaded_files`, a
  list the session model does not hold, is not modelled.
- Scan.TreeRootMatchesTotal: holds only until `clear_upload`. That event
  sets `latest_snapshot` to `None` but keeps `file_tree`, so `total_files`
  reads 0 while the tree's root still counts the previous scan
  (`Scan.ClearUploadLeavesStaleTree`). What holds in every reachable
  session is `Scan.TreeRootMatchesLastScan`.
- Walking the disk, `os.path.getsize`, reading files and `ast.parse`: these
  are I/O. Their outcomes are inputs to the model: a `Dir` tree, an
  optional size, a line count, and parsed import nodes or a failure.
- Line counting: the count is taken as given. It models
  `sum(1 for _ in f)` under `errors="ignore"` and is 0 when reading failed.
- `time.time()`: the snapshot has no timestamp.
- `folders_data` is always empty, so the snapshot has no folder table.
- The `is_scanning` flag, `active_page`, toasts and the async
  `async with self` blocks are not modelled. A scan is one atomic step.
- `dependency_figure`, `file_type_chart_data`, `total_size_mb`,
  `total_lines_of_code`, `scan_target_display` and
  `current_path_with_indices`: these are presentation formatting and
  layout over data the model already has.
- `set_active_page`, `set_search_query`, `set_filter_extension` and
  `clear_filters`: these are plain field assignments of the session.
- `getsize` raising an error other than `FileNotFoundError` aborts the
  scan in the source. The model gives every file either a size or `None`.
- Imports.ExtractDependencies: only `SyntaxError` from `ast.parse` is
  caught. Any other exception it raises, such as the `ValueError` older
  Pythons raise for source holding NUL bytes, escapes and aborts
  `run_scan` without a snapshot. The model's `Source` has no such outcome:
  its one parse failure, `Unparsable`, stands for `SyntaxError` and yields
  no dependencies.
- Views.FilteredUnused: `str.lower` is modelled for ASCII letters only.
  Non-ASCII case folding is not modelled.
- Imports.ParseImports: the order of `list(set)` is fixed as discovery
  order. Python's order is hash-dependent.
- The condition `if not self.file_tree` in `current_view` can never hold,
  because the tree is never empty. `Tree.CurrentView` has no such branch.
- The layering check is the single fixed rule that the code applies
  ("components" must not import "states"). It is not a configurable list of
  rules.

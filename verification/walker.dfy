/**
 * The directory walk of a scan and the metrics it accumulates
 * (`run_scan`, app/states/state.py). `os.walk` is modelled by a directory
 * tree given as data: each directory lists its files and subdirectories in
 * the order `os.listdir` returned them, and each file carries the size
 * `os.path.getsize` reported (or nothing, when the file vanished between
 * listing and measuring) and the number of lines read from it (0 when it
 * could not be read).
 */
module Walker {
  import opened Wrappers
  import opened Strings
  import opened Paths
  import opened OrderedDict

  /** Directory names the walk never descends into, at any depth below the root. */
  const IgnoreDirs: set<string> := {".git", "__pycache__", "node_modules", ".web", "assets"}

  /** File names that are never recorded. */
  const IgnoreFiles: set<string> := {".DS_Store"}

  /** The extension recorded for a file whose name has none. */
  const NoExtension: string := "Other"

  datatype FileEntry = FileEntry(name: Name, size: Option<nat>, lines: nat)

  datatype Dir = Dir(name: Name, subdirs: seq<Dir>, files: seq<FileEntry>)

  /** One scanned file: its path relative to the scan root, size in bytes, line count and extension. */
  datatype FileRecord = FileRecord(path: string, size: nat, lines: nat, ext: string)

  /** `ext if ext else "Other"` with `_, ext = os.path.splitext(name)`. */
  function ExtensionOf(name: string): (ext: string)
    ensures ext != ""
    ensures ext == NoExtension || (ext[0] == '.' && EndsWith(name, ext))
  {
    var (stem, e) := SplitExt(name);
    assert name == stem + e;
    if e == "" then NoExtension else e
  }

  /** A file name gets "Other" exactly when no non-dot character precedes a dot in it. */
  lemma ExtensionOfName(name: string)
    requires Sep !in name
    ensures ExtensionOf(name) == NoExtension <==> !HasExtension(name)
  {
    SplitExtName(name);
    var e := SplitExt(name).1;
    if e != "" {
      assert ExtensionOf(name) == e && e[0] == '.';
      assert NoExtension[0] == 'O';
    }
  }

  /** The recorded extension is the dotted suffix after the stem: `ExtensionOf("main.py") == ".py"`. */
  lemma ExtensionOfStem(stem: string, ext: string)
    requires Sep !in stem
    requires exists k :: 0 <= k < |stem| && stem[k] != '.'
    requires |ext| >= 1 && ext[0] == '.' && '.' !in ext[1..] && Sep !in ext
    ensures ExtensionOf(stem + ext) == ext
  {
    SplitExtOfStem(stem, ext);
  }

  /** A file is recorded unless its name is ignored or it disappeared before its size was read. */
  predicate Recorded(f: FileEntry)
  {
    f.name !in IgnoreFiles && f.size.Some?
  }

  /** The record of file `f` lying in directory `dir` (segments below the scan root). */
  function RecordOf(dir: seq<Name>, f: FileEntry): FileRecord
    requires f.size.Some?
  {
    FileRecord(JoinWith(dir + [f.name], Sep), f.size.value, f.lines, ExtensionOf(f.name))
  }

  /** The records of one directory's own files, in listing order. */
  function FileRecords(files: seq<FileEntry>, dir: seq<Name>): (rs: seq<FileRecord>)
    ensures forall f :: f in files && Recorded(f) ==> RecordOf(dir, f) in rs
    ensures forall r :: r in rs ==> exists f :: f in files && Recorded(f) && r == RecordOf(dir, f)
  {
    if |files| == 0 then []
    else
      var f := files[0];
      var rest := FileRecords(files[1..], dir);
      assert forall g :: g in files ==> g == f || g in files[1..];
      if Recorded(f) then [RecordOf(dir, f)] + rest else rest
  }

  /** Top-down walk of `d`, which lies at `dir` below the scan root: its own files, then each non-ignored subdirectory in turn. */
  function Walk(d: Dir, dir: seq<Name>): seq<FileRecord>
    decreases d
  {
    FileRecords(d.files, dir) + WalkSubdirs(d.subdirs, dir)
  }

  function WalkSubdirs(ds: seq<Dir>, dir: seq<Name>): seq<FileRecord>
    decreases ds
  {
    if |ds| == 0 then []
    else
      (if ds[0].name in IgnoreDirs then [] else Walk(ds[0], dir + [ds[0].name]))
      + WalkSubdirs(ds[1..], dir)
  }

  /** A relative path whose every segment is a directory-entry name. */
  predicate WellFormedPath(p: string)
  {
    var parts := Split(p, Sep);
    forall k :: 0 <= k < |parts| ==> IsName(parts[k])
  }

  /** A relative path that passes the walk's ignore rules: no ignored directory on the way, no ignored file name at the end. */
  predicate Admitted(p: string)
  {
    var parts := Split(p, Sep);
    && parts[|parts| - 1] !in IgnoreFiles
    && forall k :: 0 <= k < |parts| - 1 ==> parts[k] !in IgnoreDirs
  }

  /** What the walk promises about every record it produces. */
  predicate GoodRecord(r: FileRecord)
  {
    WellFormedPath(r.path) && Admitted(r.path) && r.ext != ""
  }

  /** The record of a file in a non-ignored directory passes the ignore rules. */
  lemma RecordOfGood(dir: seq<Name>, f: FileEntry)
    requires forall k :: 0 <= k < |dir| ==> dir[k] !in IgnoreDirs
    requires Recorded(f)
    ensures GoodRecord(RecordOf(dir, f))
  {
    var parts: seq<string> := dir + [f.name];
    assert forall k :: 0 <= k < |parts| ==> Sep !in parts[k];
    SplitJoin(parts, Sep);
    var split := Split(RecordOf(dir, f).path, Sep);
    assert split == parts;
    assert forall k :: 0 <= k < |split| ==> IsName(split[k]);
    assert forall k :: 0 <= k < |split| - 1 ==> split[k] == dir[k];
    assert split[|split| - 1] == f.name;
  }

  lemma FileRecordsGood(files: seq<FileEntry>, dir: seq<Name>)
    requires forall k :: 0 <= k < |dir| ==> dir[k] !in IgnoreDirs
    ensures forall r :: r in FileRecords(files, dir) ==> GoodRecord(r)
  {
    forall r | r in FileRecords(files, dir) ensures GoodRecord(r) {
      var f :| f in files && Recorded(f) && r == RecordOf(dir, f);
      RecordOfGood(dir, f);
    }
  }

  /**
   * Every record of a walk that starts in a non-ignored position has a
   * well-formed path that passes the ignore rules, and a non-empty extension.
   */
  lemma {:induction false} WalkGood(d: Dir, dir: seq<Name>)
    requires forall k :: 0 <= k < |dir| ==> dir[k] !in IgnoreDirs
    ensures forall r :: r in Walk(d, dir) ==> GoodRecord(r)
    decreases d
  {
    FileRecordsGood(d.files, dir);
    WalkSubdirsGood(d.subdirs, dir);
  }

  lemma {:induction false} WalkSubdirsGood(ds: seq<Dir>, dir: seq<Name>)
    requires forall k :: 0 <= k < |dir| ==> dir[k] !in IgnoreDirs
    ensures forall r :: r in WalkSubdirs(ds, dir) ==> GoodRecord(r)
    decreases ds
  {
    if |ds| > 0 {
      if ds[0].name !in IgnoreDirs {
        WalkGood(ds[0], dir + [ds[0].name]);
      }
      WalkSubdirsGood(ds[1..], dir);
    }
  }

  /** The scan root itself is walked whatever its name; the ignore rules apply below it. */
  lemma ScanRecordsGood(root: Dir)
    ensures forall r :: r in Walk(root, []) ==> GoodRecord(r)
  {
    WalkGood(root, []);
  }

  /** Every recorded file of a walked directory is in the walk. */
  lemma WalkIncludesFiles(d: Dir, dir: seq<Name>, f: FileEntry)
    requires f in d.files && Recorded(f)
    ensures RecordOf(dir, f) in Walk(d, dir)
  {
  }

  /** The walk of a list of subdirectories is the first one's walk (none if it is ignored) followed by the rest's. */
  lemma WalkSubdirsCons(ds: seq<Dir>, dir: seq<Name>)
    requires |ds| > 0
    ensures WalkSubdirs(ds, dir)
      == (if ds[0].name in IgnoreDirs then [] else Walk(ds[0], dir + [ds[0].name])) + WalkSubdirs(ds[1..], dir)
  {
  }

  /** Everything the walk of a non-ignored subdirectory finds is part of its parent's walk. */
  lemma {:induction false} WalkIncludesSubdir(ds: seq<Dir>, dir: seq<Name>, k: nat, r: FileRecord)
    requires k < |ds| && ds[k].name !in IgnoreDirs
    requires r in Walk(ds[k], dir + [ds[k].name])
    ensures r in WalkSubdirs(ds, dir)
    decreases k
  {
    WalkSubdirsCons(ds, dir);
    if k > 0 {
      var tail := ds[1..];
      assert tail[k - 1] == ds[k];
      WalkIncludesSubdir(tail, dir, k - 1, r);
    }
  }

  /** Nothing below an ignored subdirectory is walked: the subdirectory contributes no records. */
  lemma {:induction false} IgnoredSubdirSkipped(ds: seq<Dir>, dir: seq<Name>, k: nat)
    requires k < |ds| && ds[k].name in IgnoreDirs
    ensures WalkSubdirs(ds, dir) == WalkSubdirs(ds[..k], dir) + WalkSubdirs(ds[k + 1..], dir)
    decreases k
  {
    if k == 0 {
      assert ds[..0] == [];
      assert ds[1..] == ds[k + 1..];
    } else {
      IgnoredSubdirSkipped(ds[1..], dir, k - 1);
      assert ds[1..][..k - 1] == ds[..k][1..];
      assert ds[1..][k..] == ds[k + 1..];
      assert ds[..k][0] == ds[0];
    }
  }

  function SumSizes(rs: seq<FileRecord>): nat
  {
    if |rs| == 0 then 0 else SumSizes(rs[..|rs| - 1]) + rs[|rs| - 1].size
  }

  function SumLines(rs: seq<FileRecord>): nat
  {
    if |rs| == 0 then 0 else SumLines(rs[..|rs| - 1]) + rs[|rs| - 1].lines
  }

  /** Number of records with extension `e`. */
  function CountExt(rs: seq<FileRecord>, e: string): nat
  {
    if |rs| == 0 then 0 else CountExt(rs[..|rs| - 1], e) + (if rs[|rs| - 1].ext == e then 1 else 0)
  }

  /** The counters of a scan and its extension histogram (`file_type_distribution`). */
  datatype Totals = Totals(totalFiles: nat, totalSize: nat, totalLines: nat, histogram: Dict<nat>)

  /** The accumulation performed as each record is appended (app/states/state.py:403-410). */
  method Aggregate(records: seq<FileRecord>) returns (t: Totals)
    ensures t.totalFiles == |records|
    ensures t.totalSize == SumSizes(records)
    ensures t.totalLines == SumLines(records)
    ensures UniqueKeys(t.histogram)
    ensures SumValues(t.histogram) == t.totalFiles
    ensures forall e :: GetCount(t.histogram, e) == CountExt(records, e)
    ensures forall e :: e in Keys(t.histogram) <==> exists i :: 0 <= i < |records| && records[i].ext == e
  {
    var files, size, lines := 0, 0, 0;
    var hist: Dict<nat> := [];
    var i := 0;
    while i < |records|
      invariant 0 <= i <= |records|
      invariant files == i
      invariant size == SumSizes(records[..i])
      invariant lines == SumLines(records[..i])
      invariant UniqueKeys(hist)
      invariant SumValues(hist) == i
      invariant forall e :: GetCount(hist, e) == CountExt(records[..i], e)
      invariant forall e :: e in Keys(hist) <==> exists j :: 0 <= j < i && records[j].ext == e
    {
      var r := records[i];
      assert records[..i + 1][..i] == records[..i];
      IncrementAddsOne(hist, r.ext);
      PutKeepsKeysUnique(hist, r.ext, GetCount(hist, r.ext) + 1);
      forall e ensures GetCount(Increment(hist, r.ext), e) == CountExt(records[..i + 1], e) {
        PutGet(hist, r.ext, GetCount(hist, r.ext) + 1, e);
      }
      hist := Increment(hist, r.ext);
      files, size, lines := files + 1, size + r.size, lines + r.lines;
      i := i + 1;
    }
    assert records[..i] == records;
    t := Totals(files, size, lines, hist);
  }
}

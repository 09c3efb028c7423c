/**
 * POSIX path arithmetic as `os.path` performs it, on paths given either as
 * strings with `/` separators or as sequences of segments: `splitext`,
 * two-argument `join`, repeated `dirname`, and `relpath`.
 */
module Paths {
  import opened Strings

  /** `os.sep` on the POSIX systems the scanner runs on. */
  const Sep: char := '/'

  /** A directory-entry name as `os.listdir` returns it. */
  predicate IsName(s: string)
  {
    s != "" && Sep !in s && s != "." && s != ".."
  }

  type Name = s: string | IsName(s) witness "a"

  /** A dotted module name as `ast` reports it: non-empty dot-separated parts, no path separator. */
  predicate IsModuleName(m: string)
  {
    Sep !in m && var parts := Split(m, '.'); forall k :: 0 <= k < |parts| ==> parts[k] != ""
  }

  type ModuleName = m: string | IsModuleName(m) witness "m"

  predicate HasNonDot(p: string, lo: int, hi: int)
    requires 0 <= lo <= hi <= |p|
  {
    exists k :: lo <= k < hi && p[k] != '.'
  }

  /**
   * `os.path.splitext(p)`: the extension starts at the last dot of the last
   * path component, provided some character other than a dot precedes it in
   * that component (so `.bashrc` and `..` have no extension).
   */
  function SplitExt(p: string): (r: (string, string))
    ensures r.0 + r.1 == p
    ensures r.1 == "" || (r.1[0] == '.' && Sep !in r.1 && '.' !in r.1[1..])
  {
    var sepIndex := LastIndexOf(p, Sep);
    var dotIndex := LastIndexOf(p, '.');
    if dotIndex > sepIndex && HasNonDot(p, sepIndex + 1, dotIndex) then
      assert forall k :: 0 <= k < |p[dotIndex..]| ==> p[dotIndex..][k] == p[dotIndex + k];
      (p[..dotIndex], p[dotIndex..])
    else
      (p, "")
  }

  /** Appending a dotted suffix to a stem that has a non-dot character is undone by `splitext`. */
  lemma SplitExtOfStem(stem: string, ext: string)
    requires Sep !in stem
    requires exists k :: 0 <= k < |stem| && stem[k] != '.'
    requires |ext| >= 1 && ext[0] == '.' && '.' !in ext[1..] && Sep !in ext
    ensures SplitExt(stem + ext) == (stem, ext)
  {
    var p := stem + ext;
    assert p[|stem|] == '.';
    assert forall j :: |stem| < j < |p| ==> p[j] == ext[1..][j - |stem| - 1];
    var dotIndex := LastIndexOf(p, '.');
    assert dotIndex == |stem|;
    assert forall j :: 0 <= j < |p| ==> p[j] != Sep by {
      forall j | 0 <= j < |p| ensures p[j] != Sep {
        if j < |stem| { assert p[j] == stem[j]; } else { assert p[j] == ext[j - |stem|]; }
      }
    }
    var k :| 0 <= k < |stem| && stem[k] != '.';
    assert p[k] == stem[k];
    assert HasNonDot(p, 0, dotIndex);
    assert p[..dotIndex] == stem && p[dotIndex..] == ext;
  }

  /** Some character other than a dot comes before some dot: what `splitext` needs to find an extension in a name. */
  predicate HasExtension(name: string)
  {
    exists i, j :: 0 <= i < j < |name| && name[i] != '.' && name[j] == '.'
  }

  /**
   * For a name without separators `splitext` finds an extension exactly
   * when a non-dot character precedes some dot; together with the ensures of
   * `SplitExt` this fixes the extension as the suffix from the last dot.
   * So `.bashrc`, `..` and `README` have none, and `a.tar.gz` has `.gz`.
   */
  lemma SplitExtName(name: string)
    requires Sep !in name
    ensures SplitExt(name).1 != "" <==> HasExtension(name)
  {
    assert LastIndexOf(name, Sep) == -1;
    var dotIndex := LastIndexOf(name, '.');
    if HasExtension(name) {
      var i, j :| 0 <= i < j < |name| && name[i] != '.' && name[j] == '.';
      assert j <= dotIndex;
      assert HasNonDot(name, 0, dotIndex);
    }
    if SplitExt(name).1 != "" {
      var k :| 0 <= k < dotIndex && name[k] != '.';
      assert name[dotIndex] == '.';
    }
  }

  /** The contract of `LastIndexOf` pins its result: a position holding `c` with none after it, or -1. */
  lemma LastIndexOfIs(s: string, c: char, i: int)
    requires -1 <= i < |s|
    requires 0 <= i ==> s[i] == c
    requires forall j :: i < j < |s| ==> s[j] != c
    ensures LastIndexOf(s, c) == i
  {
  }

  /** Whether a non-dot character precedes position `dn` of `name` does not change when `name` is placed at offset `|q|`. */
  lemma HasNonDotShift(q: string, name: string, dn: nat)
    requires dn <= |name|
    ensures HasNonDot(q + name, |q|, |q| + dn) <==> HasNonDot(name, 0, dn)
  {
    var p := q + name;
    if HasNonDot(name, 0, dn) {
      var k :| 0 <= k < dn && name[k] != '.';
      assert p[|q| + k] == name[k];
    }
    if HasNonDot(p, |q|, |q| + dn) {
      var k :| |q| <= k < |q| + dn && p[k] != '.';
      assert name[k - |q|] == p[k];
    }
  }

  /**
   * For a path with a directory part, `splitext` works on the last component
   * alone: `pkg/main.py` splits as `pkg/main` and `.py`, and a dot in the
   * directory part is never taken for an extension.
   */
  lemma SplitExtPath(dir: string, name: string)
    requires Sep !in name
    ensures SplitExt(dir + [Sep] + name) == (dir + [Sep] + SplitExt(name).0, SplitExt(name).1)
  {
    var q := dir + [Sep];
    var p := q + name;
    assert forall j :: |q| <= j < |p| ==> p[j] == name[j - |q|];
    LastIndexOfIs(p, Sep, |dir|);
    assert LastIndexOf(name, Sep) == -1;
    var dn := LastIndexOf(name, '.');
    if dn >= 0 {
      SplitExtPathDot(q, name, dn);
    }
  }

  lemma SplitExtPathDot(q: string, name: string, dn: nat)
    requires |q| > 0 && q[|q| - 1] == Sep && Sep !in name
    requires dn < |name| && name[dn] == '.' && forall j :: dn < j < |name| ==> name[j] != '.'
    ensures SplitExt(q + name) == (q + SplitExt(name).0, SplitExt(name).1)
  {
    var p := q + name;
    assert forall j :: |q| <= j < |p| ==> p[j] == name[j - |q|];
    LastIndexOfIs(name, '.', dn);
    LastIndexOfIs(name, Sep, -1);
    LastIndexOfIs(p, '.', |q| + dn);
    LastIndexOfIs(p, Sep, |q| - 1);
    HasNonDotShift(q, name, dn);
    SplitExtAt(name, -1, dn);
    SplitExtAt(p, |q| - 1, |q| + dn);
    if HasNonDot(name, 0, dn) {
      assert p[..|q| + dn] == q + name[..dn];
      assert p[|q| + dn..] == name[dn..];
    }
  }

  /** One unfolding of `SplitExt` once the two positions it looks up are known. */
  lemma SplitExtAt(p: string, si: int, di: int)
    requires LastIndexOf(p, Sep) == si && LastIndexOf(p, '.') == di
    ensures SplitExt(p) == if di > si && HasNonDot(p, si + 1, di) then (p[..di], p[di..]) else (p, "")
  {
  }

  /** `os.path.join(a, b)` for two arguments. */
  function JoinPath(a: string, b: string): (r: string)
    ensures StartsWith(b, [Sep]) ==> r == b
    ensures !StartsWith(b, [Sep]) ==> EndsWith(r, b) && StartsWith(r, a)
  {
    if StartsWith(b, [Sep]) then b
    else if a == "" || EndsWith(a, [Sep]) then a + b
    else a + [Sep] + b
  }

  /** One `os.path.dirname` on a path given by its segments; the root is its own parent. */
  function Parent(segs: seq<string>): seq<string>
  {
    if |segs| == 0 then [] else segs[..|segs| - 1]
  }

  /** `n` successive `os.path.dirname` steps. */
  function Ascend(segs: seq<string>, n: nat): seq<string>
  {
    if n == 0 then segs else Ascend(Parent(segs), n - 1)
  }

  /** `n` parent steps drop the last `n` segments, stopping at the root. */
  lemma {:induction false} AscendDropsSegments(segs: seq<string>, n: nat)
    ensures n <= |segs| ==> Ascend(segs, n) == segs[..|segs| - n]
    ensures n > |segs| ==> Ascend(segs, n) == []
    decreases n
  {
    if n > 0 {
      AscendDropsSegments(Parent(segs), n - 1);
      if n <= |segs| {
        assert Parent(segs)[..|Parent(segs)| - (n - 1)] == segs[..|segs| - n];
      }
    }
  }

  function Repeat(s: string, n: nat): (r: seq<string>)
    ensures |r| == n && forall k :: 0 <= k < n ==> r[k] == s
  {
    if n == 0 then [] else [s] + Repeat(s, n - 1)
  }

  /** Length of the longest common prefix (`os.path.commonprefix` on segment lists). */
  function CommonPrefixLength(a: seq<string>, b: seq<string>): (n: nat)
    ensures n <= |a| && n <= |b|
    ensures a[..n] == b[..n]
    ensures n < |a| && n < |b| ==> a[n] != b[n]
  {
    if |a| == 0 || |b| == 0 || a[0] != b[0] then 0
    else
      var n := 1 + CommonPrefixLength(a[1..], b[1..]);
      assert a[..n] == [a[0]] + a[1..][..n - 1];
      assert b[..n] == [b[0]] + b[1..][..n - 1];
      n
  }

  /** `os.path.relpath(path, start)` on absolute, normalised segment lists (the empty result stands for "."). */
  function RelPath(path: seq<string>, start: seq<string>): seq<string>
  {
    var c := CommonPrefixLength(path, start);
    Repeat("..", |start| - c) + path[c..]
  }

  /** Resolving a sequence of segments from a directory, where ".." goes up one level (`os.path.normpath`). */
  function Resolve(dir: seq<string>, rel: seq<string>): seq<string>
    decreases |rel|
  {
    if |rel| == 0 then dir
    else if rel[0] == ".." then Resolve(Parent(dir), rel[1..])
    else Resolve(dir + [rel[0]], rel[1..])
  }

  lemma {:induction false} ResolveNames(dir: seq<string>, names: seq<string>)
    requires forall k :: 0 <= k < |names| ==> names[k] != ".."
    ensures Resolve(dir, names) == dir + names
    decreases |names|
  {
    if |names| > 0 {
      ResolveNames(dir + [names[0]], names[1..]);
      assert dir + [names[0]] + names[1..] == dir + names;
    }
  }

  lemma {:induction false} ResolveUp(dir: seq<string>, k: nat, rest: seq<string>)
    requires k <= |dir|
    ensures Resolve(dir, Repeat("..", k) + rest) == Resolve(dir[..|dir| - k], rest)
    decreases k
  {
    if k == 0 {
      assert Repeat("..", k) + rest == rest;
      assert dir[..|dir| - k] == dir;
    } else {
      assert (Repeat("..", k) + rest)[0] == "..";
      assert (Repeat("..", k) + rest)[1..] == Repeat("..", k - 1) + rest;
      ResolveUp(Parent(dir), k - 1, rest);
      assert Parent(dir)[..|Parent(dir)| - (k - 1)] == dir[..|dir| - k];
    }
  }

  /** `relpath` is undone by resolving its result from the start directory. */
  lemma RelPathRoundTrip(path: seq<string>, start: seq<string>)
    requires forall k :: 0 <= k < |path| ==> path[k] != ".."
    ensures Resolve(start, RelPath(path, start)) == path
  {
    var c := CommonPrefixLength(path, start);
    ResolveUp(start, |start| - c, path[c..]);
    assert start[..|start| - (|start| - c)] == path[..c];
    ResolveNames(path[..c], path[c..]);
    assert path[..c] + path[c..] == path;
  }

  /** A path inside the start directory is made relative by dropping the start's segments. */
  lemma RelPathBelow(start: seq<string>, below: seq<string>)
    ensures RelPath(start + below, start) == below
  {
    var path := start + below;
    var c := CommonPrefixLength(path, start);
    assert path[..|start|] == start;
    assert c == |start|;
    assert path[c..] == below;
  }

  /** `os.path.normpath(rel).replace(os.sep, ".")`: a relative path turned into a dotted module identifier. */
  function DottedIdentifier(rel: seq<string>): string
  {
    if |rel| == 0 then "." else Replace(JoinWith(rel, Sep), Sep, '.')
  }
}

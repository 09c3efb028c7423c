/**
 * Duplicate-free sequences: `list(set(xs))` in first-occurrence order, and
 * `sorted(list(set(xs)))` under a strict total order. The sorted form is
 * used for the unused-file list, the extension list and the graph's node
 * and edge lists.
 */
module Sorting {
  import opened Strings

  /** No element occurs twice. */
  predicate Distinct<T(==)>(s: seq<T>)
  {
    forall i, j :: 0 <= i < j < |s| ==> s[i] != s[j]
  }

  /** The elements of `xs` appended to `acc` in order of first occurrence, skipping those already present. */
  function DedupInto<T(==,!new)>(acc: seq<T>, xs: seq<T>): (r: seq<T>)
    requires Distinct(acc)
    ensures Distinct(r)
    ensures forall y :: y in r <==> y in acc || y in xs
    decreases |xs|
  {
    if |xs| == 0 then acc
    else if xs[0] in acc then DedupInto(acc, xs[1..])
    else DedupInto(acc + [xs[0]], xs[1..])
  }

  /** `a` is `b` with some elements left out, the rest kept in order. */
  predicate Subsequence<T(==)>(a: seq<T>, b: seq<T>)
    decreases |b|
  {
    if |a| == 0 then true
    else if |b| == 0 then false
    else if a[0] == b[0] then Subsequence(a[1..], b[1..])
    else Subsequence(a, b[1..])
  }

  lemma {:induction false} SubsequenceDropHead<T>(a: seq<T>, b: seq<T>)
    requires |a| > 0 && Subsequence(a, b)
    ensures Subsequence(a[1..], b)
    decreases |b|, 2
  {
    if |a[1..]| > 0 {
      if a[0] == b[0] {
        SubsequenceSkip(a[1..], b);
      } else {
        SubsequenceDropHead(a, b[1..]);
        SubsequenceSkip(a[1..], b);
      }
    }
  }

  lemma {:induction false} SubsequenceSkip<T>(a: seq<T>, b: seq<T>)
    requires |b| > 0 && Subsequence(a, b[1..])
    ensures Subsequence(a, b)
    decreases |b|, 1
  {
    if |a| > 0 && a[0] == b[0] {
      SubsequenceDropHead(a, b[1..]);
    }
  }

  /** Keeping a subsequence of a subsequence keeps a subsequence. */
  lemma {:induction false} SubsequenceTransitive<T>(a: seq<T>, b: seq<T>, c: seq<T>)
    requires Subsequence(a, b) && Subsequence(b, c)
    ensures Subsequence(a, c)
    decreases |c|
  {
    if |a| > 0 {
      if b[0] == c[0] {
        if a[0] == b[0] {
          SubsequenceTransitive(a[1..], b[1..], c[1..]);
        } else {
          SubsequenceTransitive(a, b[1..], c[1..]);
        }
      } else {
        SubsequenceTransitive(a, b, c[1..]);
        SubsequenceSkip(a, c);
      }
    }
  }

  /** A subsequence of a strictly sorted sequence is strictly sorted. */
  lemma {:induction false} SubsequenceSorted<T(!new)>(a: seq<T>, b: seq<T>, lt: (T, T) -> bool)
    requires StrictTotalOrder(lt)
    requires StrictlySorted(b, lt) && Subsequence(a, b)
    ensures StrictlySorted(a, lt)
    decreases |b|
  {
    if |a| > 0 {
      assert StrictlySorted(b[1..], lt);
      if a[0] == b[0] {
        SubsequenceSorted(a[1..], b[1..], lt);
        SubsequenceMembers(a[1..], b[1..]);
        forall i, j | 0 <= i < j < |a| ensures lt(a[i], a[j]) {
          if i > 0 {
            assert a[1..][i - 1] == a[i] && a[1..][j - 1] == a[j];
          } else {
            assert a[j] == a[1..][j - 1];
            assert a[j] in b[1..];
          }
        }
      } else {
        SubsequenceSorted(a, b[1..], lt);
      }
    }
  }

  /** Every element of a subsequence is an element of the whole. */
  lemma {:induction false} SubsequenceMembers<T>(a: seq<T>, b: seq<T>)
    requires Subsequence(a, b)
    ensures forall x :: x in a ==> x in b
    decreases |b|
  {
    if |a| > 0 {
      if a[0] == b[0] {
        SubsequenceMembers(a[1..], b[1..]);
        assert forall x :: x in a ==> x == a[0] || x in a[1..];
      } else {
        SubsequenceMembers(a, b[1..]);
      }
    }
  }

  /** `[x for x in s if keep(x)]`. */
  function Filter<T(==,!new)>(s: seq<T>, keep: T -> bool): (r: seq<T>)
    ensures forall x :: x in r <==> x in s && keep(x)
    ensures Subsequence(r, s)
  {
    if |s| == 0 then []
    else
      var rest := Filter(s[1..], keep);
      assert forall x :: x in s <==> x == s[0] || x in s[1..];
      if keep(s[0]) then
        assert ([s[0]] + rest)[1..] == rest;
        [s[0]] + rest
      else rest
  }

  /** Deduplicating one more element either ignores it or appends it. */
  lemma {:induction false} DedupIntoSnoc<T(!new)>(acc: seq<T>, xs: seq<T>, x: T)
    requires Distinct(acc)
    ensures var r := DedupInto(acc, xs);
      DedupInto(acc, xs + [x]) == if x in r then r else r + [x]
    decreases |xs|
  {
    if |xs| == 0 {
      assert xs + [x] == [x];
      assert DedupInto(acc, [x]) == (if x in acc then DedupInto(acc, []) else DedupInto(acc + [x], []));
    } else {
      assert (xs + [x])[0] == xs[0];
      assert (xs + [x])[1..] == xs[1..] + [x];
      if xs[0] in acc {
        DedupIntoSnoc(acc, xs[1..], x);
      } else {
        DedupIntoSnoc(acc + [xs[0]], xs[1..], x);
      }
    }
  }

  /** `xs` with repeated elements dropped, keeping each first occurrence. */
  function Dedup<T(==,!new)>(xs: seq<T>): (r: seq<T>)
    ensures Distinct(r)
    ensures forall y :: y in r <==> y in xs
  {
    DedupInto([], xs)
  }

  ghost predicate StrictTotalOrder<T(!new)>(lt: (T, T) -> bool)
  {
    && (forall x :: !lt(x, x))
    && (forall x, y, z :: lt(x, y) && lt(y, z) ==> lt(x, z))
    && (forall x, y :: x != y ==> lt(x, y) || lt(y, x))
  }

  /** Every element is strictly below every later one: sorted and duplicate-free. */
  predicate StrictlySorted<T>(s: seq<T>, lt: (T, T) -> bool)
  {
    forall i, j :: 0 <= i < j < |s| ==> lt(s[i], s[j])
  }

  /** Places `x` into a strictly sorted sequence, unless it is already there. */
  function InsertSorted<T(==,!new)>(x: T, s: seq<T>, lt: (T, T) -> bool): (r: seq<T>)
    requires StrictTotalOrder(lt)
    requires StrictlySorted(s, lt)
    ensures StrictlySorted(r, lt)
    ensures forall y :: y in r <==> y == x || y in s
  {
    if |s| == 0 then [x]
    else if lt(x, s[0]) then [x] + s
    else if x == s[0] then s
    else
      var tail := InsertSorted(x, s[1..], lt);
      assert forall y :: y in tail ==> lt(s[0], y) by {
        forall y | y in tail ensures lt(s[0], y) {
          if y != x {
            var j :| 1 <= j < |s| && s[j] == y;
          }
        }
      }
      [s[0]] + tail
  }

  /** The elements of `xs`, once each, in ascending order. */
  function SortDedup<T(==,!new)>(xs: seq<T>, lt: (T, T) -> bool): (r: seq<T>)
    requires StrictTotalOrder(lt)
    ensures StrictlySorted(r, lt)
    ensures forall y :: y in r <==> y in xs
  {
    if |xs| == 0 then [] else InsertSorted(xs[0], SortDedup(xs[1..], lt), lt)
  }

  /** There is only one strictly sorted arrangement of a given collection of elements. */
  lemma {:induction false} SortedUnique<T(!new)>(a: seq<T>, b: seq<T>, lt: (T, T) -> bool)
    requires StrictTotalOrder(lt)
    requires StrictlySorted(a, lt) && StrictlySorted(b, lt)
    requires forall y :: y in a <==> y in b
    ensures a == b
    decreases |a|
  {
    assert |b| > 0 ==> b[0] in a;
    if |a| > 0 {
      assert a[0] in b;
      assert b[0] in a;
      var ja :| 0 <= ja < |a| && a[ja] == b[0];
      var jb :| 0 <= jb < |b| && b[jb] == a[0];
      forall y ensures y in a[1..] <==> y in b[1..] {
        if y in a[1..] {
          var i :| 1 <= i < |a| && a[i] == y;
          assert y != a[0];
          assert y in b;
          assert y != b[0];
          var k :| 0 <= k < |b| && b[k] == y;
          assert b[1..][k - 1] == y;
        }
        if y in b[1..] {
          var i :| 1 <= i < |b| && b[i] == y;
          assert y != b[0];
          assert y in a;
          var k :| 0 <= k < |a| && a[k] == y;
          assert a[1..][k - 1] == y;
        }
      }
      SortedUnique(a[1..], b[1..], lt);
    }
  }

  /** Python's `<` on `str` is a strict total order. */
  lemma LexLessIsStrictTotalOrder()
    ensures StrictTotalOrder(LexLess)
  {
    forall x: string ensures !LexLess(x, x) {
      LexIrreflexive(x);
    }
    forall x: string, y: string, z: string | LexLess(x, y) && LexLess(y, z) ensures LexLess(x, z) {
      LexTransitive(x, y, z);
    }
    forall x: string, y: string | x != y ensures LexLess(x, y) || LexLess(y, x) {
      LexTotal(x, y);
    }
  }

  /** Python's `<` on pairs of strings: by first component, then by second. */
  predicate PairLess(a: (string, string), b: (string, string))
  {
    LexLess(a.0, b.0) || (a.0 == b.0 && LexLess(a.1, b.1))
  }

  lemma PairLessIsStrictTotalOrder()
    ensures StrictTotalOrder(PairLess)
  {
    LexLessIsStrictTotalOrder();
    forall x: (string, string), y: (string, string) | x != y ensures PairLess(x, y) || PairLess(y, x) {
      if x.0 == y.0 {
        LexTotal(x.1, y.1);
      } else {
        LexTotal(x.0, y.0);
      }
    }
  }
}

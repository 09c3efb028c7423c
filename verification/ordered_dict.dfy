/**
 * Python's `dict[str, V]`, which remembers the order in which keys were
 * first inserted: an association list whose keys are distinct. Assigning
 * `d[k] = v` replaces the value in place when `k` is present and appends
 * the pair otherwise.
 */
module OrderedDict {
  import opened Wrappers
  import opened Sorting

  datatype Entry<V> = Entry(key: string, value: V)

  type Dict<V> = seq<Entry<V>>

  /** `list(d.keys())`, in insertion order. */
  function Keys<V>(d: Dict<V>): (ks: seq<string>)
    ensures |ks| == |d|
    ensures forall i :: 0 <= i < |d| ==> ks[i] == d[i].key
  {
    if |d| == 0 then [] else [d[0].key] + Keys(d[1..])
  }

  predicate UniqueKeys<V>(d: Dict<V>)
  {
    Distinct(Keys(d))
  }

  /** `d.get(k)`. */
  function Get<V>(d: Dict<V>, k: string): (r: Option<V>)
    ensures r.Some? <==> k in Keys(d)
  {
    if |d| == 0 then None
    else if d[0].key == k then Some(d[0].value)
    else
      assert Keys(d) == [d[0].key] + Keys(d[1..]);
      Get(d[1..], k)
  }

  /** With distinct keys, looking up an entry's key finds that entry's value. */
  lemma {:induction false} GetIndex<V>(d: Dict<V>, i: nat)
    requires UniqueKeys(d) && i < |d|
    ensures Get(d, d[i].key) == Some(d[i].value)
    decreases |d|
  {
    if i > 0 {
      assert Keys(d)[0] != Keys(d)[i];
      assert Keys(d[1..]) == Keys(d)[1..];
      GetIndex(d[1..], i - 1);
    }
  }

  /** `d[k] = v`. */
  function Put<V>(d: Dict<V>, k: string, v: V): (r: Dict<V>)
    ensures k in Keys(d) ==> Keys(r) == Keys(d)
    ensures k !in Keys(d) ==> Keys(r) == Keys(d) + [k]
  {
    if |d| == 0 then [Entry(k, v)]
    else if d[0].key == k then
      assert Keys([Entry(k, v)] + d[1..]) == [k] + Keys(d[1..]);
      [Entry(k, v)] + d[1..]
    else
      var tail := Put(d[1..], k, v);
      var r := [d[0]] + tail;
      assert Keys(r) == [d[0].key] + Keys(tail);
      assert Keys(d) == [d[0].key] + Keys(d[1..]);
      assert r[1..] == tail;
      assert k in Keys(d) <==> k in Keys(d[1..]);
      r
  }

  /** Assignment never introduces a second entry for a key. */
  lemma PutKeepsKeysUnique<V>(d: Dict<V>, k: string, v: V)
    requires UniqueKeys(d)
    ensures UniqueKeys(Put(d, k, v))
  {
  }

  /** After `d[k] = v`, looking up `k` gives `v` and every other key keeps its value. */
  lemma {:induction false} PutGet<V>(d: Dict<V>, k: string, v: V, other: string)
    ensures Get(Put(d, k, v), k) == Some(v)
    ensures other != k ==> Get(Put(d, k, v), other) == Get(d, other)
    decreases |d|
  {
    if |d| > 0 && d[0].key != k {
      PutGet(d[1..], k, v, other);
      assert Put(d, k, v) == [d[0]] + Put(d[1..], k, v);
    }
  }

  /** Sum of the values of a counting dictionary, `sum(d.values())`. */
  function SumValues(d: Dict<nat>): nat
  {
    if |d| == 0 then 0 else d[0].value + SumValues(d[1..])
  }

  /** `d.get(k, 0)`. */
  function GetCount(d: Dict<nat>, k: string): nat
  {
    match Get(d, k)
    case Some(n) => n
    case None => 0
  }

  /** `d[k] = d.get(k, 0) + 1`. */
  function Increment(d: Dict<nat>, k: string): Dict<nat>
  {
    Put<nat>(d, k, GetCount(d, k) + 1)
  }

  /** Assigning `v` to `k` replaces `k`'s old count (0 when absent) by `v` in the total. */
  lemma {:induction false} PutSum(d: Dict<nat>, k: string, v: nat)
    ensures SumValues(Put<nat>(d, k, v)) + GetCount(d, k) == SumValues(d) + v
    decreases |d|
  {
    if |d| == 0 {
      assert Put<nat>(d, k, v) == [Entry(k, v)];
      assert SumValues([Entry(k, v)]) == v + SumValues([]);
    } else if d[0].key == k {
      var r := [Entry(k, v)] + d[1..];
      assert Put<nat>(d, k, v) == r;
      assert r[1..] == d[1..];
      assert GetCount(d, k) == d[0].value;
    } else {
      PutSum(d[1..], k, v);
      var tail := Put<nat>(d[1..], k, v);
      var r := [d[0]] + tail;
      assert Put<nat>(d, k, v) == r;
      assert r[1..] == tail;
      assert Get(d, k) == Get(d[1..], k);
    }
  }

  /** Counting one more occurrence adds exactly one to the total of the counts. */
  lemma IncrementAddsOne(d: Dict<nat>, k: string)
    ensures SumValues(Increment(d, k)) == SumValues(d) + 1
  {
    PutSum(d, k, GetCount(d, k) + 1);
  }
}

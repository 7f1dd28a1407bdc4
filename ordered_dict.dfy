/**
 * A Python `dict` with string keys as an insertion-ordered list of entries.
 * Assigning to a key that is present replaces its value where it stands;
 * assigning to a new key appends it. Iterating `d.items()` visits the entries
 * in this order.
 */
module OrderedDict {
  import opened Wrappers

  datatype Entry<V> = Entry(key: string, value: V)

  type Dict<V> = seq<Entry<V>>

  /** The keys of a list of entries, in order (`list(d.keys())` for a dict). */
  function Keys<V>(d: seq<Entry<V>>): (r: seq<string>)
    ensures |r| == |d|
    ensures forall i :: 0 <= i < |d| ==> r[i] == d[i].key
  {
    seq(|d|, i requires 0 <= i < |d| => d[i].key)
  }

  predicate DistinctKeys<V>(d: Dict<V>) {
    forall i, j :: 0 <= i < j < |d| ==> d[i].key != d[j].key
  }

  /** The position of the first entry under key `k`. */
  function IndexOf<V>(d: Dict<V>, k: string): (i: nat)
    requires k in Keys(d)
    ensures i < |d| && d[i].key == k
    ensures forall j :: 0 <= j < i ==> d[j].key != k
  {
    if d[0].key == k then 0
    else
      assert k in Keys(d[1..]) by {
        var j :| 0 <= j < |d| && Keys(d)[j] == k;
        assert Keys(d[1..])[j - 1] == k;
      }
      1 + IndexOf(d[1..], k)
  }

  /** A position holding key `k` with no earlier one is the position `IndexOf` finds. */
  lemma IndexOfIsFirst<V>(d: Dict<V>, k: string, i: nat)
    requires i < |d| && d[i].key == k
    requires forall j :: 0 <= j < i ==> d[j].key != k
    ensures k in Keys(d) && IndexOf(d, k) == i
  {
    assert Keys(d)[i] == k;
  }

  /** `d.get(k)`: the value stored under `k`, if any. */
  function Lookup<V>(d: Dict<V>, k: string): (r: Option<V>)
    ensures r.None? <==> k !in Keys(d)
    ensures r.Some? ==> exists i :: 0 <= i < |d| && d[i] == Entry(k, r.value)
  {
    if k in Keys(d) then Some(d[IndexOf(d, k)].value) else None
  }

  /** `d[k] = v`: a present key keeps its position, a new key is appended. */
  function Put<V>(d: Dict<V>, k: string, v: V): (r: Dict<V>)
    ensures k in Keys(d) ==> Keys(r) == Keys(d)
    ensures k !in Keys(d) ==> r == d + [Entry(k, v)]
  {
    if k in Keys(d) then
      var r := d[IndexOf(d, k) := Entry(k, v)];
      assert Keys(r) == Keys(d);
      r
    else d + [Entry(k, v)]
  }

  /** Assigning replaces the value of a present key where it stands and
      keeps the keys distinct. */
  lemma PutDistinct<V>(d: Dict<V>, k: string, v: V)
    requires DistinctKeys(d)
    ensures DistinctKeys(Put(d, k, v))
    ensures k in Keys(d) ==> forall i :: 0 <= i < |d| ==> Put(d, k, v)[i] == (if d[i].key == k then Entry(k, v) else d[i])
  {
    if k !in Keys(d) {
      var r := Put(d, k, v);
      forall i, j | 0 <= i < j < |r| ensures r[i].key != r[j].key {
        if j == |d| { assert Keys(d)[i] == d[i].key; }
      }
    }
  }

  /** After `d[k] = v`, `k` holds `v` and every other key what it held before. */
  lemma PutLookup<V>(d: Dict<V>, k: string, v: V)
    ensures Lookup(Put(d, k, v), k) == Some(v)
    ensures forall x :: x != k ==> Lookup(Put(d, k, v), x) == Lookup(d, x)
  {
    var r := Put(d, k, v);
    if k in Keys(d) {
      IndexOfIsFirst(r, k, IndexOf(d, k));
      forall x | x != k && x in Keys(d) ensures IndexOf(r, x) == IndexOf(d, x) {
        IndexOfIsFirst(r, x, IndexOf(d, x));
      }
    } else {
      assert Keys(r) == Keys(d) + [k];
      IndexOfIsFirst(r, k, |d|);
      forall x | x != k && x in Keys(d) ensures IndexOf(r, x) == IndexOf(d, x) {
        IndexOfIsFirst(r, x, IndexOf(d, x));
      }
    }
  }

  /** The dict obtained from `{}` by the assignments `d[e.key] = e.value`,
      one per entry of `kvs`, in order. */
  function FromPairs<V>(kvs: seq<Entry<V>>): (r: Dict<V>)
    ensures DistinctKeys(r)
    ensures forall x :: x in Keys(r) <==> x in Keys(kvs)
  {
    if kvs == [] then []
    else
      var n := |kvs| - 1;
      var prefix := FromPairs(kvs[..n]);
      assert Keys(kvs) == Keys(kvs[..n]) + [kvs[n].key];
      var r := Put(prefix, kvs[n].key, kvs[n].value);
      PutDistinct(prefix, kvs[n].key, kvs[n].value);
      assert Keys(prefix + [kvs[n]]) == Keys(prefix) + [kvs[n].key];
      r
  }

  /** One more assignment on top of the ones before it. */
  lemma FromPairsStep<V>(kvs: seq<Entry<V>>, i: nat)
    requires i < |kvs|
    ensures FromPairs(kvs[..i + 1]) == Put(FromPairs(kvs[..i]), kvs[i].key, kvs[i].value)
  {
    assert kvs[..i + 1][..i] == kvs[..i];
  }

  /** The value of the last entry of `kvs` under key `k`, if any. */
  function LastValue<V>(kvs: seq<Entry<V>>, k: string): (r: Option<V>)
    ensures r.None? <==> k !in Keys(kvs)
    ensures r.Some? ==> exists i :: 0 <= i < |kvs| && kvs[i] == Entry(k, r.value) &&
                                   forall j :: i < j < |kvs| ==> kvs[j].key != k
  {
    if kvs == [] then None
    else
      var n := |kvs| - 1;
      assert Keys(kvs) == Keys(kvs[..n]) + [kvs[n].key];
      if kvs[n].key == k then Some(kvs[n].value)
      else
        var r := LastValue(kvs[..n], k);
        assert forall i :: 0 <= i < n ==> kvs[..n][i] == kvs[i];
        r
  }

  /** Last write wins: after the successive assignments of `kvs`, every key
      maps to the value it was last assigned, and keys never assigned are absent. */
  lemma {:induction false} FromPairsLookup<V>(kvs: seq<Entry<V>>, k: string)
    ensures Lookup(FromPairs(kvs), k) == LastValue(kvs, k)
  {
    if kvs != [] {
      var n := |kvs| - 1;
      FromPairsLookup(kvs[..n], k);
      PutLookup(FromPairs(kvs[..n]), kvs[n].key, kvs[n].value);
    }
  }

  /** The keys of `kvs` without repetitions, each where it first occurs. */
  function FirstKeys<V>(kvs: seq<Entry<V>>): (r: seq<string>)
  {
    if kvs == [] then []
    else
      var n := |kvs| - 1;
      var prefix := FirstKeys(kvs[..n]);
      if kvs[n].key in prefix then prefix else prefix + [kvs[n].key]
  }

  /** Keys keep the position of their first assignment. */
  lemma {:induction false} FromPairsKeyOrder<V>(kvs: seq<Entry<V>>)
    ensures Keys(FromPairs(kvs)) == FirstKeys(kvs)
  {
    if kvs != [] {
      var n := |kvs| - 1;
      FromPairsKeyOrder(kvs[..n]);
      var p := FromPairs(kvs[..n]);
      assert Keys(p + [kvs[n]]) == Keys(p) + [kvs[n].key];
    }
  }

  predicate Distinct(s: seq<string>) {
    forall i, j :: 0 <= i < j < |s| ==> s[i] != s[j]
  }

  /** Without repeated keys, the first-occurrence order is the order of `kvs`. */
  lemma {:induction false} FirstKeysOfDistinct<V>(kvs: seq<Entry<V>>)
    requires Distinct(Keys(kvs))
    ensures FirstKeys(kvs) == Keys(kvs)
  {
    if kvs != [] {
      var n := |kvs| - 1;
      assert Keys(kvs) == Keys(kvs[..n]) + [kvs[n].key];
      assert Distinct(Keys(kvs[..n]));
      FirstKeysOfDistinct(kvs[..n]);
    }
  }

  /** `dict.fromkeys(s)`: every element of `s` assigned as a key, in order. */
  function FromKeys(s: seq<string>): (r: Dict<()>)
    ensures DistinctKeys(r)
  {
    FromPairs(seq(|s|, i requires 0 <= i < |s| => Entry(s[i], ())))
  }

  /** `list(dict.fromkeys(s))` is `s` itself when `s` has no repetitions. */
  lemma FromKeysOfDistinct(s: seq<string>)
    requires Distinct(s)
    ensures Keys(FromKeys(s)) == s
  {
    var kvs := seq(|s|, i requires 0 <= i < |s| => Entry(s[i], ()));
    assert Keys(kvs) == s;
    FromPairsKeyOrder(kvs);
    FirstKeysOfDistinct(kvs);
  }
}

/**
 * Insertion-ordered dictionaries with the semantics of Python's `dict`:
 * writing an existing key replaces its value in place, writing a new key
 * appends it. The Django querysets the handler scans are modelled the same way.
 */
module Dict {
  import opened Wrappers

  type Dict<K, V> = seq<(K, V)>

  function Keys<K, V>(d: Dict<K, V>): (r: set<K>)
    ensures forall e :: e in d ==> e.0 in r
  {
    if d == [] then {} else {d[0].0} + Keys(d[1..])
  }

  /** A key is present exactly when some entry carries it. */
  lemma {:induction false} KeysMember<K, V>(d: Dict<K, V>, k: K)
    ensures k in Keys(d) <==> exists e :: e in d && e.0 == k
  {
    if d != [] {
      KeysMember(d[1..], k);
      if exists e :: e in d && e.0 == k {
        var e :| e in d && e.0 == k;
        if e != d[0] { assert e in d[1..]; }
      }
    }
  }

  /** No key occurs twice. */
  predicate UniqueKeys<K(==), V>(d: Dict<K, V>)
  {
    d == [] || (d[0].0 !in Keys(d[1..]) && UniqueKeys(d[1..]))
  }

  /** The value stored under `k`, the first one when keys repeat. */
  function Get<K(==), V>(d: Dict<K, V>, k: K): (r: Option<V>)
    ensures r.Some? <==> k in Keys(d)
    ensures r.Some? ==> (k, r.value) in d
  {
    if d == [] then None
    else if d[0].0 == k then Some(d[0].1)
    else Get(d[1..], k)
  }

  /** In a dictionary without repeated keys, every entry is what `Get` finds. */
  lemma {:induction false} GetEntry<K, V>(d: Dict<K, V>, k: K, v: V)
    requires UniqueKeys(d)
    requires (k, v) in d
    ensures Get(d, k) == Some(v)
  {
    if d[0] != (k, v) {
      assert (k, v) in d[1..];
      KeysMember(d[1..], k);
      GetEntry(d[1..], k, v);
    }
  }

  /** The position of a key present in the table. */
  lemma {:induction false} KeyIndex<K, V>(d: Dict<K, V>, k: K) returns (i: int)
    requires k in Keys(d)
    ensures 0 <= i < |d| && d[i].0 == k
  {
    if d[0].0 == k {
      i := 0;
    } else {
      var j := KeyIndex(d[1..], k);
      i := j + 1;
    }
  }

  /** In a table with unique keys, every entry is what its key looks up. */
  lemma IndexGet<K, V>(d: Dict<K, V>, i: int)
    requires UniqueKeys(d) && 0 <= i < |d|
    ensures Get(d, d[i].0) == Some(d[i].1)
  {
    assert d[i] in d;
    GetEntry(d, d[i].0, d[i].1);
  }

  /** `d[k] = v` on a Python dict. */
  function Put<K(==, !new), V>(d: Dict<K, V>, k: K, v: V): (r: Dict<K, V>)
    ensures Keys(r) == Keys(d) + {k}
    ensures Get(r, k) == Some(v)
    ensures forall x :: x != k ==> Get(r, x) == Get(d, x)
    ensures UniqueKeys(d) ==> UniqueKeys(r)
    ensures k in Keys(d) ==> |r| == |d|
    ensures k !in Keys(d) ==> r == d + [(k, v)]
    ensures forall e :: e in r ==> e in d || e == (k, v)
  {
    if d == [] then [(k, v)]
    else if d[0].0 == k then
      var r := [(k, v)] + d[1..];
      assert r[1..] == d[1..];
      r
    else
      var rest := Put(d[1..], k, v);
      var r := [d[0]] + rest;
      assert r[0] == d[0] && r[1..] == rest;
      r
  }

  /** Writes every entry of `es` in order, as a loop of `d[k] = v` does. */
  function PutAll<K(==, !new), V>(d: Dict<K, V>, es: seq<(K, V)>): (r: Dict<K, V>)
    ensures Keys(r) == Keys(d) + Keys(es)
    ensures UniqueKeys(d) ==> UniqueKeys(r)
    ensures forall e :: e in r ==> e in d || e in es
    decreases |es|
  {
    if es == [] then d
    else PutAll(Put(d, es[0].0, es[0].1), es[1..])
  }

  /** After writing entries with distinct keys, a key holds its written value,
      or its old one when it was not written. */
  lemma {:induction false} GetPutAll<K(!new), V>(d: Dict<K, V>, es: seq<(K, V)>, k: K)
    requires UniqueKeys(es)
    ensures Get(PutAll(d, es), k) == if k in Keys(es) then Get(es, k) else Get(d, k)
    decreases |es|
  {
    if es != [] {
      GetPutAll(Put(d, es[0].0, es[0].1), es[1..], k);
    }
  }

  /** A key that none of the written entries carries keeps its old value. */
  lemma {:induction false} PutAllUntouched<K(!new), V>(d: Dict<K, V>, es: seq<(K, V)>, k: K)
    requires k !in Keys(es)
    ensures Get(PutAll(d, es), k) == Get(d, k)
    decreases |es|
  {
    if es != [] {
      PutAllUntouched(Put(d, es[0].0, es[0].1), es[1..], k);
    }
  }

  /** Entry `i` is the last of `es` written under key `k`. */
  predicate LastWrite<K(==), V>(es: seq<(K, V)>, k: K, i: int)
  {
    0 <= i < |es| && es[i].0 == k && k !in Keys(es[i + 1..])
  }

  /** When keys repeat, the last write under a key wins. */
  lemma PutAllLast<K(!new), V>(d: Dict<K, V>, es: seq<(K, V)>, k: K) returns (i: int)
    requires k in Keys(es)
    ensures LastWrite(es, k, i) && Get(PutAll(d, es), k) == Some(es[i].1)
  {
    i := LastIndex(es, k);
    PutAllAt(d, es, k, i);
  }

  /** A key that is written has a last write. */
  lemma {:induction false} LastIndex<K, V>(es: seq<(K, V)>, k: K) returns (i: int)
    requires k in Keys(es)
    ensures LastWrite(es, k, i)
  {
    if k in Keys(es[1..]) {
      var i' := LastIndex(es[1..], k);
      i := i' + 1;
      assert es[1..][i' + 1..] == es[i + 1..];
    } else {
      i := 0;
    }
  }

  /** The last write under `k` is what `k` holds afterwards. */
  lemma {:induction false} PutAllAt<K(!new), V>(d: Dict<K, V>, es: seq<(K, V)>, k: K, i: int)
    requires LastWrite(es, k, i)
    ensures Get(PutAll(d, es), k) == Some(es[i].1)
    decreases |es|
  {
    if i == 0 {
      PutAllOnlyWrite(d, es, k);
    } else {
      var d' := Put(d, es[0].0, es[0].1);
      assert PutAll(d, es) == PutAll(d', es[1..]);
      assert es[1..][i - 1] == es[i] && es[1..][i..] == es[i + 1..];
      PutAllAt(d', es[1..], k, i - 1);
    }
  }

  /** A key written first and never again holds that first value. */
  lemma PutAllOnlyWrite<K(!new), V>(d: Dict<K, V>, es: seq<(K, V)>, k: K)
    requires es != [] && es[0].0 == k && k !in Keys(es[1..])
    ensures Get(PutAll(d, es), k) == Some(es[0].1)
  {
    var d' := Put(d, k, es[0].1);
    assert PutAll(d, es) == PutAll(d', es[1..]);
    PutAllUntouched(d', es[1..], k);
  }

  /** Applies `f` to every value, keeping keys and order. */
  function MapValues<K, V, W>(d: Dict<K, V>, f: V -> W): (r: Dict<K, W>)
    ensures |r| == |d|
    ensures forall i :: 0 <= i < |d| ==> r[i] == (d[i].0, f(d[i].1))
    ensures Keys(r) == Keys(d)
    ensures UniqueKeys(d) ==> UniqueKeys(r)
  {
    if d == [] then [] else [(d[0].0, f(d[0].1))] + MapValues(d[1..], f)
  }

  /** Looking a key up after `MapValues` finds the mapped value. */
  lemma {:induction false} GetMapValues<K, V, W>(d: Dict<K, V>, f: V -> W, k: K)
    ensures Get(MapValues(d, f), k) == if k in Keys(d) then Some(f(Get(d, k).value)) else None
  {
    if d != [] && d[0].0 != k {
      assert MapValues(d, f)[1..] == MapValues(d[1..], f);
      GetMapValues(d[1..], f, k);
    }
  }
}

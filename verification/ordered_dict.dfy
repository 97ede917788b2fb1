/** Python's insertion-ordered dict as an association list: `d[k] = v`
    replaces the value of an existing key where it stands, and appends a new
    key at the end. */
module OrderedDict {
  import opened Wrappers

  type Dict<K, V> = seq<(K, V)>

  function Keys<K, V>(d: Dict<K, V>): (ks: seq<K>)
    ensures |ks| == |d|
    ensures forall i :: 0 <= i < |d| ==> ks[i] == d[i].0
  {
    if d == [] then [] else [d[0].0] + Keys(d[1..])
  }

  ghost predicate DistinctKeys<K, V>(d: Dict<K, V>)
  {
    forall i, j :: 0 <= i < j < |d| ==> d[i].0 != d[j].0
  }

  /** `d.get(k)`: the value stored under `k`, if any. */
  function Get<K(==), V>(d: Dict<K, V>, k: K): (r: Option<V>)
    ensures r.Some? ==> (k, r.value) in d
    ensures r.None? <==> k !in Keys(d)
  {
    if d == [] then None
    else if d[0].0 == k then Some(d[0].1)
    else
      assert Keys(d) == [d[0].0] + Keys(d[1..]);
      Get(d[1..], k)
  }

  /** `d[k] = v`. */
  function Put<K(==,!new), V>(d: Dict<K, V>, k: K, v: V): (r: Dict<K, V>)
    ensures Get(r, k) == Some(v)
    ensures forall k' :: k' != k ==> Get(r, k') == Get(d, k')
    ensures forall e :: e in r ==> e in d || e == (k, v)
  {
    if d == [] then [(k, v)]
    else if d[0].0 == k then [(k, v)] + d[1..]
    else
      var rest := Put(d[1..], k, v);
      var r := [d[0]] + rest;
      assert r[1..] == rest;
      r
  }

  /** `d[k] = v` keeps the key order: an existing key stays where it is and a
      new key goes last. */
  lemma {:induction false} PutKeys<K(!new), V>(d: Dict<K, V>, k: K, v: V)
    ensures Keys(Put(d, k, v)) == if k in Keys(d) then Keys(d) else Keys(d) + [k]
  {
    var r := Put(d, k, v);
    if d == [] {
    } else if d[0].0 == k {
      assert Keys(d) == [k] + Keys(d[1..]);
      assert r[1..] == d[1..];
      assert Keys(r) == [k] + Keys(r[1..]);
    } else {
      var rest := Put(d[1..], k, v);
      PutKeys(d[1..], k, v);
      assert r == [d[0]] + rest;
      assert Keys(d) == [d[0].0] + Keys(d[1..]);
      assert r[0] == d[0] && r[1..] == rest;
      assert Keys(r) == [d[0].0] + Keys(rest);
      assert k in Keys(d) <==> k in Keys(d[1..]);
    }
  }

  /** Keys that are distinct stay distinct under `d[k] = v`. */
  lemma PutDistinct<K(!new), V>(d: Dict<K, V>, k: K, v: V)
    requires DistinctKeys(d)
    ensures DistinctKeys(Put(d, k, v))
  {
    var r := Put(d, k, v);
    PutKeys(d, k, v);
    forall i, j | 0 <= i < j < |r| ensures r[i].0 != r[j].0 {
      assert Keys(r)[i] == r[i].0 && Keys(r)[j] == r[j].0;
    }
  }

  /** Looking up in a dictionary extended at the end. */
  lemma {:induction false} GetSnoc<K, V>(d: Dict<K, V>, k: K, v: V, a: K)
    ensures Get(d + [(k, v)], a) == if Get(d, a).Some? then Get(d, a) else if a == k then Some(v) else None
  {
    if d != [] {
      assert (d + [(k, v)])[1..] == d[1..] + [(k, v)];
      GetSnoc(d[1..], k, v, a);
    }
  }

  /** `d.update(u)`: the entries of `u`, in order, each written with `d[k] = v`. */
  function Update<K(==,!new), V>(d: Dict<K, V>, u: Dict<K, V>): Dict<K, V>
  {
    if u == [] then d
    else Put(Update(d, u[..|u| - 1]), u[|u| - 1].0, u[|u| - 1].1)
  }

  /** After `d.update(u)` (with `u` a dict, so its keys distinct) a key holds its
      value in `u` when it has one, and its old value in `d` otherwise. */
  lemma {:induction false} UpdateGet<K(!new), V>(d: Dict<K, V>, u: Dict<K, V>, k: K)
    requires DistinctKeys(u)
    ensures Get(Update(d, u), k) == if Get(u, k).Some? then Get(u, k) else Get(d, k)
  {
    if u != [] {
      var init, last := u[..|u| - 1], u[|u| - 1];
      assert u == init + [last];
      assert DistinctKeys(init);
      UpdateGet(d, init, k);
      GetSnoc(init, last.0, last.1, k);
      if k == last.0 {
        assert k !in Keys(init) by {
          forall i | 0 <= i < |init| ensures Keys(init)[i] != k {
            assert u[i].0 != u[|u| - 1].0;
          }
        }
      }
    }
  }

  /** `d.update(u)` keeps the keys of a dict distinct. */
  lemma {:induction false} UpdateDistinct<K(!new), V>(d: Dict<K, V>, u: Dict<K, V>)
    requires DistinctKeys(d)
    ensures DistinctKeys(Update(d, u))
  {
    if u != [] {
      UpdateDistinct(d, u[..|u| - 1]);
      PutDistinct(Update(d, u[..|u| - 1]), u[|u| - 1].0, u[|u| - 1].1);
    }
  }
}

/** An optional value: the PHP code's unset keys, nulls and `false` returns. */
module Options {
  datatype Option<T> = None | Some(value: T)
}

/**
 * PHP's ordered arrays with explicit keys: a sequence of key/value pairs,
 * each key at most once, kept in insertion order. Assigning to an existing
 * key updates it in place; assigning to a new key appends it.
 */
module Tables {
  import opened Options

  datatype Pair<K, V> = Pair(key: K, val: V)

  type Table<K, V> = seq<Pair<K, V>>

  function Keys<K, V>(t: Table<K, V>): (ks: seq<K>)
    ensures |ks| == |t|
    ensures forall i :: 0 <= i < |t| ==> ks[i] == t[i].key
  {
    if t == [] then [] else [t[0].key] + Keys(t[1..])
  }

  function Vals<K, V>(t: Table<K, V>): (vs: seq<V>)
    ensures |vs| == |t|
    ensures forall i :: 0 <= i < |t| ==> vs[i] == t[i].val
  {
    if t == [] then [] else [t[0].val] + Vals(t[1..])
  }

  /** Every key occurs once: the shape of every PHP array. */
  predicate UniqueKeys<K(==), V>(t: Table<K, V>) {
    forall i, j :: 0 <= i < j < |t| ==> t[i].key != t[j].key
  }

  predicate HasKey<K(==), V>(t: Table<K, V>, k: K) {
    k in Keys(t)
  }

  /** $t[$k], None when the key is unset. */
  function Get<K(==), V>(t: Table<K, V>, k: K): (r: Option<V>)
    ensures r.None? <==> !HasKey(t, k)
  {
    if t == [] then None
    else if t[0].key == k then Some(t[0].val)
    else Get(t[1..], k)
  }

  /** In a table with unique keys, the pair at position i is what its key looks up. */
  lemma {:induction false} GetAt<K, V>(t: Table<K, V>, i: int)
    requires UniqueKeys(t) && 0 <= i < |t|
    ensures Get(t, t[i].key) == Some(t[i].val)
  {
    if i > 0 {
      assert t[0].key != t[i].key;
      GetAt(t[1..], i - 1);
    }
  }

  /** $t[$k] = $v: an existing key is updated in place, a new one is appended. */
  function Put<K(==), V>(t: Table<K, V>, k: K, v: V): (r: Table<K, V>)
    ensures HasKey(t, k) ==> Keys(r) == Keys(t)
    ensures !HasKey(t, k) ==> Keys(r) == Keys(t) + [k]
  {
    if t == [] then [Pair(k, v)]
    else if t[0].key == k then [Pair(k, v)] + t[1..]
    else [t[0]] + Put(t[1..], k, v)
  }

  /** After $t[$k] = $v, key k holds v and every other key what it held before. */
  lemma {:induction false} PutGet<K, V>(t: Table<K, V>, k: K, v: V, j: K)
    ensures Get(Put(t, k, v), j) == if j == k then Some(v) else Get(t, j)
  {
    if t != [] && t[0].key != k {
      PutGet(t[1..], k, v, j);
    }
  }

  lemma PutUnique<K, V>(t: Table<K, V>, k: K, v: V)
    requires UniqueKeys(t)
    ensures UniqueKeys(Put(t, k, v))
  {
    var r := Put(t, k, v);
    var ks := Keys(r);
    forall i, j | 0 <= i < j < |r| ensures r[i].key != r[j].key {
      assert ks[i] == r[i].key && ks[j] == r[j].key;
      if !HasKey(t, k) && j == |t| {
        assert k !in Keys(t);
        assert Keys(t)[i] == t[i].key;
      }
    }
  }

  /** Assigning the same value to the same key twice is assigning it once. */
  lemma {:induction false} PutTwice<K, V>(t: Table<K, V>, k: K, v: V)
    ensures Put(Put(t, k, v), k, v) == Put(t, k, v)
  {
    if t != [] && t[0].key != k {
      PutTwice(t[1..], k, v);
    }
  }

  /** unset($t[$k]): the pair with key k is dropped, the others keep their order. */
  function Delete<K(==), V>(t: Table<K, V>, k: K): (r: Table<K, V>)
    ensures forall p :: p in r ==> p in t && p.key != k
    ensures |r| <= |t|
  {
    if t == [] then []
    else if t[0].key == k then Delete(t[1..], k)
    else [t[0]] + Delete(t[1..], k)
  }

  /** After unset($t[$k]), key k is unset and every other key holds what it held before. */
  lemma {:induction false} DeleteGet<K, V>(t: Table<K, V>, k: K, j: K)
    ensures Get(Delete(t, k), j) == if j == k then None else Get(t, j)
  {
    if t != [] {
      DeleteGet(t[1..], k, j);
    }
    if j == k && HasKey(Delete(t, k), k) {
      var i :| 0 <= i < |Delete(t, k)| && Keys(Delete(t, k))[i] == k;
      assert Delete(t, k)[i] in Delete(t, k);
    }
  }

  /** Unsetting a key twice is unsetting it once. */
  lemma {:induction false} DeleteTwice<K, V>(t: Table<K, V>, k: K)
    ensures Delete(Delete(t, k), k) == Delete(t, k)
  {
    if t != [] {
      DeleteTwice(t[1..], k);
    }
  }

  lemma DeleteUnique<K, V>(t: Table<K, V>, k: K)
    requires UniqueKeys(t)
    ensures UniqueKeys(Delete(t, k))
  {
    if t != [] {
      DeleteUnique(t[1..], k);
      var r := Delete(t[1..], k);
      forall p | p in r ensures p.key != t[0].key {
        var i :| 0 <= i < |t[1..]| && t[1..][i] == p;
      }
    }
  }

  /** $a + $b (and $a += $b): the pairs of b whose key is not already in a, appended to a,
      with b's keys unique as in any PHP array. */
  function Union<K(==), V>(a: Table<K, V>, b: Table<K, V>): (r: Table<K, V>)
    ensures |a| <= |r| <= |a| + |b|
    ensures r[..|a|] == a
    ensures forall p :: p in r ==> p in a || p in b
    decreases |b|
  {
    if b == [] then a
    else
      var rest := Union(a, b[..|b| - 1]);
      var last := b[|b| - 1];
      if HasKey(rest, last.key) then rest else rest + [last]
  }

  lemma {:induction false} GetSnoc<K, V>(t: Table<K, V>, p: Pair<K, V>, k: K)
    ensures Get(t + [p], k) == (if HasKey(t, k) then Get(t, k) else if k == p.key then Some(p.val) else None)
  {
    if t != [] {
      assert (t + [p])[1..] == t[1..] + [p];
      GetSnoc(t[1..], p, k);
    }
  }

  /** A key of $a + $b looks up a's value when a has the key, b's otherwise. */
  lemma {:induction false} UnionGet<K, V>(a: Table<K, V>, b: Table<K, V>, k: K)
    ensures Get(Union(a, b), k) == if HasKey(a, k) then Get(a, k) else Get(b, k)
    decreases |b|
  {
    if b != [] {
      var init := b[..|b| - 1];
      var last := b[|b| - 1];
      assert b == init + [last];
      UnionGet(a, init, k);
      GetSnoc(init, last, k);
      var rest := Union(a, init);
      if !HasKey(rest, last.key) {
        GetSnoc(rest, last, k);
      } else if k == last.key {
        UnionGet(a, init, last.key);
      }
    }
  }

  lemma {:induction false} UnionUnique<K, V>(a: Table<K, V>, b: Table<K, V>)
    requires UniqueKeys(a)
    ensures UniqueKeys(Union(a, b))
    decreases |b|
  {
    if b != [] {
      var rest := Union(a, b[..|b| - 1]);
      var last := b[|b| - 1];
      UnionUnique(a, b[..|b| - 1]);
      if !HasKey(rest, last.key) {
        forall i | 0 <= i < |rest| ensures rest[i].key != last.key {
          assert Keys(rest)[i] == rest[i].key;
        }
      }
    }
  }

  /** Assigning to a key the table does not have appends the pair. */
  lemma {:induction false} PutNew<K, V>(t: Table<K, V>, k: K, v: V)
    requires !HasKey(t, k)
    ensures Put(t, k, v) == t + [Pair(k, v)]
  {
    if t != [] {
      assert Keys(t) == [t[0].key] + Keys(t[1..]);
      PutNew(t[1..], k, v);
    }
  }

  /** [] + $b is b itself. */
  lemma {:induction false} UnionIntoEmpty<K, V>(b: Table<K, V>)
    requires UniqueKeys(b)
    ensures Union([], b) == b
    decreases |b|
  {
    if b != [] {
      var init := b[..|b| - 1];
      var last := b[|b| - 1];
      UnionIntoEmpty(init);
      forall i | 0 <= i < |init| ensures Keys(init)[i] != last.key {
        assert init[i] == b[i];
      }
    }
  }
}

/**
 * Python's built-in `dict` as the counting code uses it: a map whose
 * iteration order is the order in which keys were first inserted.
 */
module OrderedDict {

  /** `keys` is the iteration order, `items` the key-to-value association. */
  datatype Dict<K, V> = Dict(keys: seq<K>, items: map<K, V>)

  predicate Distinct<K(==)>(s: seq<K>) {
    forall i, j :: 0 <= i < j < |s| ==> s[i] != s[j]
  }

  /** Every stored key is listed exactly once in the iteration order. */
  predicate Valid<K(==), V>(d: Dict<K, V>) {
    && Distinct(d.keys)
    && (forall k | k in d.items :: k in d.keys)
    && (forall i | 0 <= i < |d.keys| :: d.keys[i] in d.items)
  }

  /** `d.get(k, default)` */
  function Get<K(==), V>(d: Dict<K, V>, k: K, default: V): V {
    if k in d.items then d.items[k] else default
  }

  /**
   * `d[k] = v`: the value of `k` becomes `v`; an existing key keeps its place
   * in the iteration order and a new key is placed after all the others.
   */
  function Set<K(==), V>(d: Dict<K, V>, k: K, v: V): (r: Dict<K, V>)
    requires Valid(d)
    ensures Valid(r)
    ensures r.items == d.items[k := v]
    ensures |r.keys| == if k in d.items then |d.keys| else |d.keys| + 1
    ensures r.keys[..|d.keys|] == d.keys
    ensures k !in d.items ==> r.keys[|d.keys|] == k
  {
    if k in d.items then Dict(d.keys, d.items[k := v])
    else Dict(d.keys + [k], d.items[k := v])
  }

  /** The sum of the values of `keys`, visited in order. */
  function SumOver<K(==)>(keys: seq<K>, m: map<K, int>): int
    requires forall k :: k in keys ==> k in m
  {
    if keys == [] then 0 else SumOver(keys[..|keys| - 1], m) + m[keys[|keys| - 1]]
  }

  /** The sum only looks at the values of the listed keys. */
  lemma {:induction false} SumOverAgree<K>(keys: seq<K>, m: map<K, int>, m': map<K, int>)
    requires forall k :: k in keys ==> k in m && k in m' && m[k] == m'[k]
    ensures SumOver(keys, m) == SumOver(keys, m')
  {
    if keys != [] {
      SumOverAgree(keys[..|keys| - 1], m, m');
    }
  }

  /** Storing a new key adds its value to the sum. */
  lemma SumOverInsert<K>(keys: seq<K>, m: map<K, int>, k: K, v: int)
    requires forall x :: x in keys ==> x in m
    requires k !in keys
    ensures SumOver(keys + [k], m[k := v]) == SumOver(keys, m) + v
  {
    assert (keys + [k])[..|keys|] == keys;
    SumOverAgree(keys, m, m[k := v]);
  }

  /** Adding one to the value of a listed key adds one to the sum. */
  lemma {:induction false} SumOverBump<K>(keys: seq<K>, m: map<K, int>, k: K)
    requires forall x :: x in keys ==> x in m
    requires Distinct(keys) && k in keys
    ensures SumOver(keys, m[k := m[k] + 1]) == SumOver(keys, m) + 1
  {
    var pre, last := keys[..|keys| - 1], keys[|keys| - 1];
    assert Distinct(pre);
    if last == k {
      assert k !in pre by {
        forall i | 0 <= i < |pre| ensures pre[i] != k {
          assert keys[i] != keys[|keys| - 1];
        }
      }
      SumOverAgree(pre, m, m[k := m[k] + 1]);
    } else {
      assert k in pre by {
        var i :| 0 <= i < |keys| && keys[i] == k;
        assert i < |keys| - 1;
        assert pre[i] == k;
      }
      SumOverBump(pre, m, k);
    }
  }
}

/** An insertion-ordered map with overwrite in place: the behaviour of
    `java.util.LinkedHashMap` that the history series relies on. Iteration
    order is the order in which keys were FIRST inserted; putting an existing
    key replaces its value and leaves its position alone. */
module LinkedMap {

  /** `keys` is the iteration order, `values` the associations. */
  datatype LinkedMap<K(==), V> = LinkedMap(keys: seq<K>, values: map<K, V>)

  predicate Distinct<K(==)>(ks: seq<K>) {
    forall i, j :: 0 <= i < j < |ks| ==> ks[i] != ks[j]
  }

  /** Every key occurs once in the iteration order, and exactly the mapped keys occur. */
  ghost predicate Valid<K(!new), V>(m: LinkedMap<K, V>) {
    && Distinct(m.keys)
    && forall k :: k in m.values <==> k in m.keys
  }

  function Empty<K(==,!new), V>(): (m: LinkedMap<K, V>)
    ensures Valid(m) && |m.keys| == 0 && |m.values| == 0
  {
    LinkedMap([], map[])
  }

  /** `put(k, v)`. */
  function Put<K(==,!new), V>(m: LinkedMap<K, V>, k: K, v: V): (r: LinkedMap<K, V>)
    requires Valid(m)
    ensures Valid(r)
    ensures k in r.values && r.values[k] == v
    ensures forall x :: x != k ==> (x in r.values <==> x in m.values)
    ensures forall x :: x != k && x in m.values ==> r.values[x] == m.values[x]
    ensures k in m.values ==> r.keys == m.keys
    ensures k !in m.values ==> r.keys == m.keys + [k]
  {
    if k in m.values then LinkedMap(m.keys, m.values[k := v])
    else LinkedMap(m.keys + [k], m.values[k := v])
  }

  /** The map obtained by putting every pair, in order, into an empty map. */
  function FromPairs<K(==,!new), V>(pairs: seq<(K, V)>): (r: LinkedMap<K, V>)
    ensures Valid(r)
  {
    if |pairs| == 0 then Empty()
    else Put(FromPairs(pairs[..|pairs| - 1]), pairs[|pairs| - 1].0, pairs[|pairs| - 1].1)
  }

  function KeysOf<K(==,!new), V>(pairs: seq<(K, V)>): (ks: seq<K>)
    ensures |ks| == |pairs|
    ensures forall i :: 0 <= i < |pairs| ==> ks[i] == pairs[i].0
  {
    if |pairs| == 0 then [] else KeysOf(pairs[..|pairs| - 1]) + [pairs[|pairs| - 1].0]
  }

  lemma KeysOfAppend<K(!new), V>(a: seq<(K, V)>, b: seq<(K, V)>)
    ensures KeysOf(a + b) == KeysOf(a) + KeysOf(b)
  {
    assert forall i :: 0 <= i < |a + b| ==> KeysOf(a + b)[i] == (KeysOf(a) + KeysOf(b))[i];
  }

  /** Position of the first occurrence of `k`. */
  function FirstIndex<K(==)>(ks: seq<K>, k: K): (i: nat)
    requires k in ks
    ensures i < |ks| && ks[i] == k
    ensures forall j :: 0 <= j < i ==> ks[j] != k
  {
    if ks[0] == k then 0 else 1 + FirstIndex(ks[1..], k)
  }

  /** Position of the last occurrence of `k`. */
  function LastIndex<K(==)>(ks: seq<K>, k: K): (i: nat)
    requires k in ks
    ensures i < |ks| && ks[i] == k
    ensures forall j :: i < j < |ks| ==> ks[j] != k
  {
    if ks[|ks| - 1] == k then |ks| - 1 else LastIndex(ks[..|ks| - 1], k)
  }

  /** One more pair is one more `put`. */
  lemma FromPairsSnoc<K(!new), V>(pairs: seq<(K, V)>, k: K, v: V)
    ensures FromPairs(pairs + [(k, v)]) == Put(FromPairs(pairs), k, v)
  {
    assert (pairs + [(k, v)])[..|pairs|] == pairs;
  }

  /** Exactly the keys that were put are present. */
  lemma {:induction false} FromPairsKeys<K(!new), V>(pairs: seq<(K, V)>)
    ensures forall k :: k in FromPairs(pairs).keys <==> k in KeysOf(pairs)
  {
    if |pairs| > 0 {
      var front := pairs[..|pairs| - 1];
      FromPairsKeys(front);
      assert KeysOf(pairs) == KeysOf(front) + [pairs[|pairs| - 1].0];
    }
  }

  /** Iteration order after a run of puts: keys are ordered by where they
      were FIRST put. */
  lemma {:induction false} FromPairsOrderAt<K(!new), V>(pairs: seq<(K, V)>, x: nat, y: nat)
    requires x < y < |FromPairs(pairs).keys|
    ensures FromPairs(pairs).keys[x] in KeysOf(pairs) && FromPairs(pairs).keys[y] in KeysOf(pairs)
    ensures FirstIndex(KeysOf(pairs), FromPairs(pairs).keys[x]) < FirstIndex(KeysOf(pairs), FromPairs(pairs).keys[y])
  {
    FromPairsKeys(pairs);
    var front := pairs[..|pairs| - 1];
    var p := pairs[|pairs| - 1];
    FromPairsKeys(front);
    var ks, ks' := KeysOf(front), KeysOf(pairs);
    assert ks' == ks + [p.0];
    var m, r := FromPairs(front), FromPairs(pairs);
    assert r == Put(m, p.0, p.1);
    assert r.keys[x] == m.keys[x];
    FirstIndexAppend(ks, p.0, m.keys[x]);
    if y < |m.keys| {
      assert r.keys[y] == m.keys[y];
      FromPairsOrderAt(front, x, y);
      FirstIndexAppend(ks, p.0, m.keys[y]);
    } else {
      assert r.keys[y] == p.0 && p.0 !in ks;
      FirstIndexAppendNew(ks, p.0);
    }
  }

  lemma FirstIndexAppend<K>(ks: seq<K>, x: K, k: K)
    requires k in ks
    ensures FirstIndex(ks + [x], k) == FirstIndex(ks, k)
  {
    var a, b := FirstIndex(ks + [x], k), FirstIndex(ks, k);
    assert (ks + [x])[b] == k;
  }

  lemma FirstIndexAppendNew<K>(ks: seq<K>, x: K)
    requires x !in ks
    ensures FirstIndex(ks + [x], x) == |ks|
  {
    assert (ks + [x])[|ks|] == x;
  }

  lemma LastIndexAppendOther<K>(ks: seq<K>, x: K, k: K)
    requires k in ks && k != x
    ensures LastIndex(ks + [x], k) == LastIndex(ks, k)
  {
    var a, b := LastIndex(ks + [x], k), LastIndex(ks, k);
    assert (ks + [x])[b] == k;
    assert a < |ks| ==> (ks + [x])[a] == ks[a];
  }

  /** Each key's value is the one from the LAST pair that put it. */
  lemma {:induction false} FromPairsValues<K(!new), V>(pairs: seq<(K, V)>)
    ensures forall k :: k in FromPairs(pairs).values ==>
      k in KeysOf(pairs) && FromPairs(pairs).values[k] == pairs[LastIndex(KeysOf(pairs), k)].1
  {
    FromPairsKeys(pairs);
    if |pairs| > 0 {
      var front := pairs[..|pairs| - 1];
      var p := pairs[|pairs| - 1];
      FromPairsValues(front);
      var ks, ks' := KeysOf(front), KeysOf(pairs);
      assert ks' == ks + [p.0];
      var m, r := FromPairs(front), FromPairs(pairs);
      forall k | k in r.values
        ensures r.values[k] == pairs[LastIndex(ks', k)].1
      {
        if k == p.0 {
          assert LastIndex(ks', k) == |ks|;
        } else {
          LastIndexAppendOther(ks, p.0, k);
          assert pairs[LastIndex(ks, k)] == front[LastIndex(ks, k)];
        }
      }
    }
  }

  /** Puts of pairwise different keys keep every pair: one entry per pair. */
  lemma {:induction false} FromPairsDistinctSize<K(!new), V>(pairs: seq<(K, V)>)
    requires Distinct(KeysOf(pairs))
    ensures |FromPairs(pairs).keys| == |pairs|
  {
    if |pairs| > 0 {
      var front := pairs[..|pairs| - 1];
      var p := pairs[|pairs| - 1];
      var ks := KeysOf(front);
      assert KeysOf(pairs) == ks + [p.0];
      assert Distinct(ks) by {
        forall i, j | 0 <= i < j < |ks| ensures ks[i] != ks[j] {
          assert KeysOf(pairs)[i] == ks[i] && KeysOf(pairs)[j] == ks[j];
        }
      }
      FromPairsDistinctSize(front);
      FromPairsKeys(front);
      assert p.0 !in ks by {
        forall i | 0 <= i < |ks| ensures ks[i] != p.0 {
          assert KeysOf(pairs)[i] == ks[i] && KeysOf(pairs)[|ks|] == p.0;
        }
      }
    }
  }

  /** There are never more entries than puts. */
  lemma {:induction false} FromPairsSize<K(!new), V>(pairs: seq<(K, V)>)
    ensures |FromPairs(pairs).keys| <= |pairs|
  {
    if |pairs| > 0 {
      FromPairsSize(pairs[..|pairs| - 1]);
    }
  }
}

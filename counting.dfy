/** Occurrence counting (`CountBy::count_by` and `count_by_key`). */
module Counting {

  /** The value stored under `k`, or 0 when `k` is absent (`entry(k).or_insert(0)`). */
  function Get<K>(m: map<K, nat>, k: K): nat {
    if k in m then m[k] else 0
  }

  /** The reference meaning of a count map: each key that occurs, with how often it occurs. */
  function Occurrences<K(==)>(keys: seq<K>): map<K, nat> {
    map k | k in keys :: multiset(keys)[k]
  }

  /** The sum of all values of a map. */
  ghost function SumValues<K>(m: map<K, nat>): nat
    decreases |m|
  {
    if m == map[] then 0
    else
      var k :| k in m;
      m[k] + SumValues(m - {k})
  }

  /** The sum can be split at any key, whichever key `SumValues` picks. */
  lemma {:induction false} SumValuesRemove<K>(m: map<K, nat>, k: K)
    requires k in m
    ensures SumValues(m) == m[k] + SumValues(m - {k})
    decreases |m|
  {
    var j :| j in m && SumValues(m) == m[j] + SumValues(m - {j});
    if j != k {
      var rest := m - {j} - {k};
      assert m - {j} - {k} == m - {k} - {j};
      SumValuesRemove(m - {j}, k);
      SumValuesRemove(m - {k}, j);
    }
  }

  /** Adding `d` under one key adds `d` to the sum. */
  lemma SumValuesBump<K>(m: map<K, nat>, k: K, d: nat)
    ensures SumValues(m[k := Get(m, k) + d]) == SumValues(m) + d
  {
    var m' := m[k := Get(m, k) + d];
    SumValuesRemove(m', k);
    assert m' - {k} == m - {k};
    if k in m {
      SumValuesRemove(m, k);
    } else {
      assert m - {k} == m;
    }
  }

  /** No value exceeds the sum. */
  lemma ValueAtMostSum<K>(m: map<K, nat>, k: K)
    requires k in m
    ensures m[k] <= SumValues(m)
  {
    SumValuesRemove(m, k);
  }

  /** Counting one more key adds one to that key's count and leaves the others alone. */
  lemma OccurrencesSnoc<K>(keys: seq<K>, x: K)
    ensures Occurrences(keys + [x]) == Occurrences(keys)[x := Get(Occurrences(keys), x) + 1]
  {
    var lhs := Occurrences(keys + [x]);
    var rhs := Occurrences(keys)[x := Get(Occurrences(keys), x) + 1];
    assert multiset(keys + [x]) == multiset(keys) + multiset{x};
    forall k ensures k in lhs <==> k in rhs {
      assert k in keys + [x] <==> k in keys || k == x;
    }
    assert lhs == rhs;
  }

  /** The counts add up to the number of keys counted. */
  lemma {:induction false} OccurrencesSum<K>(keys: seq<K>)
    ensures SumValues(Occurrences(keys)) == |keys|
  {
    if keys == [] {
      assert Occurrences(keys) == map[];
    } else {
      var init := keys[..|keys| - 1];
      assert keys == init + [keys[|keys| - 1]];
      OccurrencesSum(init);
      OccurrencesSnoc(init, keys[|keys| - 1]);
      SumValuesBump(Occurrences(init), keys[|keys| - 1], 1);
    }
  }

  /**
   * `count_by`: one pass over the keys, adding one to each key's entry
   * (inserting 0 first when the key is new). The result maps each key that
   * occurs to its number of occurrences, has no other key, and its values sum
   * to the number of keys.
   */
  method CountBy<K(==)>(keys: seq<K>) returns (counts: map<K, nat>)
    ensures counts == Occurrences(keys)
    ensures forall k :: k in counts <==> k in keys
    ensures forall k | k in counts :: counts[k] == multiset(keys)[k]
    ensures SumValues(counts) == |keys|
  {
    counts := map[];
    for i := 0 to |keys|
      invariant counts == Occurrences(keys[..i])
    {
      var key := keys[i];
      assert keys[..i + 1] == keys[..i] + [key];
      OccurrencesSnoc(keys[..i], key);
      counts := counts[key := Get(counts, key) + 1];
    }
    assert keys[..|keys|] == keys;
    OccurrencesSum(keys);
  }

  /** The keys `key` assigns to `values`, in order. */
  function KeysOf<V, K>(values: seq<V>, key: V -> K): (ks: seq<K>)
    ensures |ks| == |values|
    ensures forall i | 0 <= i < |values| :: ks[i] == key(values[i])
  {
    seq(|values|, i requires 0 <= i < |values| => key(values[i]))
  }

  /**
   * `count_by_key`: pairs each value with its key and counts the keys. Each key
   * that some value has is mapped to how many values have it.
   */
  method CountByKey<V, K(==)>(values: seq<V>, key: V -> K) returns (counts: map<K, nat>)
    ensures counts == Occurrences(KeysOf(values, key))
    ensures forall k :: k in counts <==> exists i | 0 <= i < |values| :: key(values[i]) == k
    ensures SumValues(counts) == |values|
  {
    var keys := KeysOf(values, key);
    counts := CountBy(keys);
    forall k ensures k in counts <==> exists i | 0 <= i < |values| :: key(values[i]) == k {
      if k in counts {
        var i :| 0 <= i < |keys| && keys[i] == k;
        assert key(values[i]) == k;
      }
    }
  }

  /** The unit test of `count_by_key`: "a" occurs twice. */
  lemma CountExample(items: seq<string>)
    requires items == ["a", "a", "b", "c", "c", "d"]
    ensures "a" in Occurrences(items) && Occurrences(items)["a"] == 2
  {
    assert items == ["a", "a"] + ["b", "c", "c", "d"];
    assert multiset(items)["a"] == 2;
  }
}

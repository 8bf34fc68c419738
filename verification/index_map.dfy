/** `IndexMap`: values annotated by the labels of an index, looked up by
    label with a first-match search. */
module IndexMaps {
  import opened Outcomes
  import opened Seqs
  import opened IndexAlgebra

  /** The (key, value) pairs, in the order of the keys the map was built from. */
  datatype IndexMap<K, V> = IndexMap(entries: seq<(K, V)>)

  function Keys<K, V>(m: IndexMap<K, V>): (r: seq<K>)
    ensures |r| == |m.entries|
  {
    seq(|m.entries|, i requires 0 <= i < |m.entries| => m.entries[i].0)
  }

  function Values<K, V>(m: IndexMap<K, V>): (r: seq<V>)
    ensures |r| == |m.entries|
  {
    seq(|m.entries|, i requires 0 <= i < |m.entries| => m.entries[i].1)
  }

  /** The constructor pairs the i-th key with the i-th value. Its two asserts
      (a value for every key, no value left over) demand equal lengths. */
  function Make<K, V>(keys: Index<K>, values: seq<V>): (r: Result<IndexMap<K, V>>)
    ensures r.Success? <==> |keys| == |values|
    ensures r.Success? ==> Keys(r.value) == keys && Values(r.value) == values
  {
    if |keys| != |values| then Failure(LengthMismatch)
    else Success(IndexMap(seq(|keys|, i requires 0 <= i < |keys| => (keys[i], values[i]))))
  }

  /** `find`: the position of the first entry whose key is `key`, or none
      (the end iterator). */
  function Find<K(==,!new), V>(m: IndexMap<K, V>, key: K): (r: Option<nat>)
    ensures r.None? <==> key !in Keys(m)
    ensures r.Some? ==> r.value < |m.entries| && m.entries[r.value].0 == key
    ensures r.Some? ==> forall i :: 0 <= i < r.value ==> m.entries[i].0 != key
  {
    var r := FirstPos(Keys(m), key);
    assert r.Some? ==> forall i :: 0 <= i < r.value ==> Keys(m)[i] == m.entries[i].0;
    r
  }

  /** Entry `j` is the first one whose key is `key`. */
  ghost predicate FirstEntry<K, V>(m: IndexMap<K, V>, key: K, j: nat) {
    && j < |m.entries|
    && m.entries[j].0 == key
    && forall i :: 0 <= i < j ==> m.entries[i].0 != key
  }

  /** `at`: the value of the first entry with key `key`; a missing key throws. */
  function At<K(==,!new), V>(m: IndexMap<K, V>, key: K): (r: Result<V>)
    ensures r.Success? <==> key in Keys(m)
    ensures r.Failure? ==> r.error == KeyNotFound
    ensures r.Success? ==> forall j: nat :: FirstEntry(m, key, j) ==> r.value == m.entries[j].1
  {
    match Find(m, key)
    case None => Failure(KeyNotFound)
    case Some(j) =>
      assert forall j': nat :: FirstEntry(m, key, j') ==> !(j' < j) && !(j < j');
      Success(m.entries[j].1)
  }

  /** `operator[](idx)`: the values of the keys of `idx`, in `idx`'s order;
      the first missing key throws. */
  function Lookup<K(==,!new), V>(m: IndexMap<K, V>, idx: Index<K>): (r: Result<seq<V>>)
    ensures r.Success? <==> forall k :: 0 <= k < |idx| ==> idx[k] in Keys(m)
    ensures r.Success? ==> |r.value| == |idx|
    ensures r.Success? ==> forall k :: 0 <= k < |idx| ==> At(m, idx[k]) == Success(r.value[k])
    decreases |idx|
  {
    if |idx| == 0 then Success([])
    else
      var init := idx[..|idx| - 1];
      assert forall k :: 0 <= k < |init| ==> init[k] == idx[k];
      var front :- Lookup(m, init);
      var v :- At(m, idx[|idx| - 1]);
      Success(front + [v])
  }

  /** In a map built from duplicate-free keys, `at` of the k-th key is the
      k-th value. */
  lemma AtMake<K(!new), V>(keys: Index<K>, values: seq<V>, k: nat)
    requires NoDup(keys) && |keys| == |values| && k < |keys|
    ensures At(Make(keys, values).value, keys[k]) == Success(values[k])
  {
    var m := Make(keys, values).value;
    assert Keys(m) == keys;
    FirstPosNoDup(keys, k);
    assert Find(m, keys[k]) == Some(k);
    assert m.entries[k].1 == Values(m)[k];
  }

  /** Building a map from duplicate-free keys and looking all of them up
      returns the values it was built from. */
  lemma LookupMake<K(!new), V>(keys: Index<K>, values: seq<V>)
    requires NoDup(keys) && |keys| == |values|
    ensures Lookup(Make(keys, values).value, keys) == Success(values)
  {
    var m := Make(keys, values).value;
    assert Keys(m) == keys;
    assert forall k :: 0 <= k < |keys| ==> keys[k] in Keys(m);
    assert Lookup(m, keys).Success?;
    var r := Lookup(m, keys).value;
    assert |r| == |values|;
    forall k | 0 <= k < |keys|
      ensures r[k] == values[k]
    {
      AtMake(keys, values, k);
    }
    assert r == values;
  }
}

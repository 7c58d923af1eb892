/**
 * Ruby's `Hash`: a dictionary that remembers the order in which its keys were
 * first inserted. Rows flowing through the ETL controls are such hashes, and the
 * controls use three of its operations: `h[k] = v`, `Hash#merge` and `Array#to_h`.
 */
module Hashes {

  /** `keys` lists every key once, in insertion order; `entries` holds the value of each key. */
  datatype OrderedMap<K(==), V> = OrderedMap(keys: seq<K>, entries: map<K, V>)
  {
    ghost predicate WellFormed() {
      && Distinct(keys)
      && entries.Keys == set k | k in keys
    }
  }

  ghost predicate Distinct<K>(ks: seq<K>) {
    forall i, j | 0 <= i < j < |ks| :: ks[i] != ks[j]
  }

  /** A Ruby hash: an ordered map whose key list and domain agree. */
  type Hash<K(==), V> = h: OrderedMap<K, V> | h.WellFormed() witness OrderedMap([], map[])

  /**
   * Ruby's `h[k] = v`: a key already present keeps its position and takes the new
   * value; a new key is appended at the end.
   */
  function Store<K(==), V>(h: Hash<K, V>, k: K, v: V): Hash<K, V>
  {
    if k in h.entries then OrderedMap(h.keys, h.entries[k := v])
    else OrderedMap(h.keys + [k], h.entries[k := v])
  }

  /** The keys of `ks`, in their order, that are not in `present`. */
  function NewKeys<K(==)>(ks: seq<K>, present: set<K>): (r: seq<K>)
    ensures forall k | k in r :: k in ks && k !in present
    ensures forall k | k in ks && k !in present :: k in r
  {
    if ks == [] then []
    else if ks[0] in present then NewKeys(ks[1..], present)
    else [ks[0]] + NewKeys(ks[1..], present)
  }

  lemma {:induction false} NewKeysIgnoresAbsent<K>(ks: seq<K>, present: set<K>, x: K)
    requires x !in ks
    ensures NewKeys(ks, present + {x}) == NewKeys(ks, present)
  {
    if ks != [] {
      NewKeysIgnoresAbsent(ks[1..], present, x);
    }
  }

  lemma DistinctTail<K>(ks: seq<K>)
    requires Distinct(ks) && ks != []
    ensures Distinct(ks[1..]) && ks[0] !in ks[1..]
  {
    forall i, j | 0 <= i < j < |ks| - 1
      ensures ks[1..][i] != ks[1..][j]
    {
      assert ks[1..][i] == ks[i + 1] && ks[1..][j] == ks[j + 1];
    }
    forall j | 0 <= j < |ks| - 1
      ensures ks[1..][j] != ks[0]
    {
      assert ks[1..][j] == ks[j + 1];
    }
  }

  /** Stores `source[k]` under each key `k` of `ks`, left to right. */
  function StoreAll<K(==), V>(h: Hash<K, V>, ks: seq<K>, source: map<K, V>): (r: Hash<K, V>)
    requires Distinct(ks)
    requires forall k | k in ks :: k in source
    ensures r.keys == h.keys + NewKeys(ks, h.entries.Keys)
    ensures forall k | k in ks :: r.entries[k] == source[k]
    ensures forall k | k in h.entries && k !in ks :: r.entries[k] == h.entries[k]
    decreases |ks|
  {
    if ks == [] then h
    else
      var k := ks[0];
      var stored := Store(h, k, source[k]);
      DistinctTail(ks);
      NewKeysIgnoresAbsent(ks[1..], h.entries.Keys, k);
      assert stored.entries.Keys == h.entries.Keys + {k};
      assert stored.keys + NewKeys(ks[1..], stored.entries.Keys) == h.keys + NewKeys(ks, h.entries.Keys) by {
        if k !in h.entries {
          assert stored.keys + NewKeys(ks[1..], h.entries.Keys) == h.keys + ([k] + NewKeys(ks[1..], h.entries.Keys));
        }
      }
      StoreAll(stored, ks[1..], source)
  }

  /**
   * Ruby's `h.merge(other)`: the receiver's keys keep their order and come first,
   * followed by the keys only `other` has, in `other`'s order; on a key both have,
   * the value of `other` wins.
   */
  function Merge<K(==), V>(h: Hash<K, V>, other: Hash<K, V>): (r: Hash<K, V>)
    ensures r.keys == h.keys + NewKeys(other.keys, h.entries.Keys)
    ensures r.entries.Keys == h.entries.Keys + other.entries.Keys
    ensures forall k | k in other.entries :: r.entries[k] == other.entries[k]
    ensures forall k | k in h.entries && k !in other.entries :: r.entries[k] == h.entries[k]
  {
    StoreAll(h, other.keys, other.entries)
  }

  /** The keys of `pairs` are exactly the keys of `h`, and every key takes the value of its last pair. */
  ghost predicate BuiltFrom<K, V>(h: Hash<K, V>, pairs: seq<(K, V)>) {
    && |h.keys| <= |pairs|
    && (forall i | 0 <= i < |pairs| :: pairs[i].0 in h.entries)
    && (forall k | k in h.entries :: exists i | 0 <= i < |pairs| :: pairs[i].0 == k)
    && (forall i | 0 <= i < |pairs| && (forall j | i < j < |pairs| :: pairs[j].0 != pairs[i].0) ::
          h.entries[pairs[i].0] == pairs[i].1)
  }

  /** Storing one more pair into a hash built from a list builds it from the longer list. */
  lemma StorePair<K, V>(h: Hash<K, V>, pairs: seq<(K, V)>)
    requires pairs != [] && BuiltFrom(h, pairs[..|pairs| - 1])
    ensures BuiltFrom(Store(h, pairs[|pairs| - 1].0, pairs[|pairs| - 1].1), pairs)
  {
    var n := |pairs| - 1;
    var prefix := pairs[..n];
    var r := Store(h, pairs[n].0, pairs[n].1);
    assert forall i | 0 <= i < n :: prefix[i] == pairs[i];
    assert r.entries.Keys == h.entries.Keys + {pairs[n].0};
    forall k | k in r.entries
      ensures exists i | 0 <= i < |pairs| :: pairs[i].0 == k
    {
      if k != pairs[n].0 {
        var i :| 0 <= i < n && prefix[i].0 == k;
        assert pairs[i].0 == k;
      }
    }
    forall i | 0 <= i < n && (forall j | i < j < |pairs| :: pairs[j].0 != pairs[i].0)
      ensures r.entries[pairs[i].0] == pairs[i].1
    {
      assert forall j | i < j < n :: prefix[j].0 != prefix[i].0;
    }
  }

  /**
   * Ruby's `Array#to_h` on key/value pairs: the pairs are stored left to right, so the
   * keys are exactly the pairs' keys and a repeated key takes its last pair's value.
   */
  function FromPairs<K(==), V>(pairs: seq<(K, V)>): (r: Hash<K, V>)
    ensures BuiltFrom(r, pairs)
    decreases |pairs|
  {
    if pairs == [] then OrderedMap([], map[])
    else
      var n := |pairs| - 1;
      StorePair(FromPairs(pairs[..n]), pairs);
      Store(FromPairs(pairs[..n]), pairs[n].0, pairs[n].1)
  }

  /** With pairwise distinct keys, `to_h` keeps the pairs' order and every pair's value. */
  lemma {:induction false} FromDistinctPairs<K, V>(pairs: seq<(K, V)>)
    requires forall i, j | 0 <= i < j < |pairs| :: pairs[i].0 != pairs[j].0
    ensures |FromPairs(pairs).keys| == |pairs|
    ensures forall i | 0 <= i < |pairs| ::
      FromPairs(pairs).keys[i] == pairs[i].0 && FromPairs(pairs).entries[pairs[i].0] == pairs[i].1
  {
    if pairs != [] {
      var n := |pairs| - 1;
      var prefix := pairs[..n];
      FromDistinctPairs(prefix);
      var h := FromPairs(prefix);
      forall i | 0 <= i < n
        ensures h.keys[i] != pairs[n].0
      {
        assert prefix[i].0 == pairs[i].0;
      }
      assert pairs[n].0 !in h.entries;
      assert FromPairs(pairs) == Store(h, pairs[n].0, pairs[n].1);
      forall i | 0 <= i < n
        ensures FromPairs(pairs).keys[i] == pairs[i].0
        ensures FromPairs(pairs).entries[pairs[i].0] == pairs[i].1
      {
        assert prefix[i] == pairs[i];
      }
    }
  }
}

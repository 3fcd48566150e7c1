/** Recency lists: keyed slots, least recently used first, as both caches of the server keep them. */
module Recency {

  datatype Slot<K, V> = Slot(key: K, value: V)

  ghost predicate Distinct<K, V>(s: seq<Slot<K, V>>) {
    forall i, j :: 0 <= i < j < |s| ==> s[i].key != s[j].key
  }

  ghost predicate Holds<K, V>(s: seq<Slot<K, V>>, key: K) {
    exists i :: 0 <= i < |s| && s[i].key == key
  }

  /** Position of a key, or the length. */
  function IndexOf<K(==), V>(s: seq<Slot<K, V>>, key: K): (i: nat)
    ensures i <= |s| && (i < |s| ==> s[i].key == key)
  {
    if s == [] || s[0].key == key then 0 else 1 + IndexOf(s[1..], key)
  }

  function Without<K(==), V>(s: seq<Slot<K, V>>, key: K): seq<Slot<K, V>> {
    var i := IndexOf(s, key);
    if i < |s| then s[..i] + s[i + 1..] else s
  }

  lemma {:induction false} IndexFirst<K, V>(s: seq<Slot<K, V>>, key: K)
    ensures forall j :: 0 <= j < IndexOf(s, key) ==> s[j].key != key
  {
    if s != [] && s[0].key != key {
      IndexFirst(s[1..], key);
      forall j | 0 <= j < IndexOf(s, key) ensures s[j].key != key {
        if j > 0 {
          assert s[1..][j - 1] == s[j];
        }
      }
    }
  }

  lemma IndexAt<K, V>(s: seq<Slot<K, V>>, i: nat)
    requires Distinct(s) && i < |s|
    ensures IndexOf(s, s[i].key) == i
  {
    IndexFirst(s, s[i].key);
  }

  lemma Dropped<T>(s: seq<T>, i: nat)
    requires i < |s|
    ensures var r := s[..i] + s[i + 1..];
      |r| == |s| - 1 && forall j :: 0 <= j < |r| ==> r[j] == if j < i then s[j] else s[j + 1]
  {
  }

  lemma WithoutIn<K, V>(s: seq<Slot<K, V>>, key: K)
    ensures |Without(s, key)| <= |s|
    ensures forall j :: 0 <= j < |Without(s, key)| ==> Without(s, key)[j] in s
  {
    var i := IndexOf(s, key);
    if i < |s| {
      Dropped(s, i);
    }
  }

  lemma WithoutKey<K, V>(s: seq<Slot<K, V>>, key: K)
    requires Distinct(s)
    ensures Distinct(Without(s, key)) && !Holds(Without(s, key), key)
  {
    var i := IndexOf(s, key);
    IndexFirst(s, key);
    if i < |s| {
      Dropped(s, i);
      hide IndexOf;
    }
  }

  lemma DistinctSnoc<K, V>(s: seq<Slot<K, V>>, x: Slot<K, V>)
    requires Distinct(s) && !Holds(s, x.key)
    ensures Distinct(s + [x])
  {
  }
}

/** Key/value pairs and the key order the builder sorts them by (KeyValuePair.java). */
module Pairs {

  /** An immutable pair; `key` and `value` are the final fields read by `getKey` and `getValue`. */
  datatype KeyValuePair = KeyValuePair(key: int, value: int)

  /** `compareTo`: the result of `Integer.compareTo` on the keys, which is -1, 0 or 1; values play no part. */
  function CompareTo(p: KeyValuePair, o: KeyValuePair): (c: int)
    ensures c < 0 <==> p.key < o.key
    ensures c == 0 <==> p.key == o.key
    ensures c > 0 <==> p.key > o.key
    ensures -1 <= c <= 1
  {
    if p.key < o.key then -1 else if p.key == o.key then 0 else 1
  }

  /** Two pairs with equal keys compare as equal whatever their values. */
  lemma CompareToIgnoresValue(k1: int, v1: int, w1: int, k2: int, v2: int, w2: int)
    ensures CompareTo(KeyValuePair(k1, v1), KeyValuePair(k2, v2)) == CompareTo(KeyValuePair(k1, w1), KeyValuePair(k2, w2))
    ensures CompareTo(KeyValuePair(k1, v1), KeyValuePair(k1, w1)) == 0
  {
  }

  /** No two different pairs of the set share a key (the builder's precondition). */
  ghost predicate DistinctKeys(pairs: set<KeyValuePair>)
  {
    forall p, q :: p in pairs && q in pairs && p.key == q.key ==> p == q
  }

  /** The keys of a set of pairs. */
  ghost function KeySet(pairs: set<KeyValuePair>): set<int>
  {
    set p | p in pairs :: p.key
  }

  /** No two positions of the list hold the same key. */
  ghost predicate KeysDistinct(list: seq<KeyValuePair>)
  {
    forall i, j :: 0 <= i < j < |list| ==> list[i].key != list[j].key
  }

  /** Strictly ascending by key, the order `Collections.sort` produces for distinct keys. */
  ghost predicate SortedByKey(list: seq<KeyValuePair>)
  {
    forall i, j :: 0 <= i < j < |list| ==> list[i].key < list[j].key
  }

  /** A suffix of a sorted list is sorted. */
  lemma SortedTail(list: seq<KeyValuePair>)
    requires |list| > 0 && SortedByKey(list)
    ensures SortedByKey(list[1..])
  {
    forall i, j | 0 <= i < j < |list| - 1
      ensures list[1..][i].key < list[1..][j].key
    {
      assert list[1..][i] == list[i + 1] && list[1..][j] == list[j + 1];
    }
  }

  /** Every pair of `r` has a key above `bound` when `r` holds the pairs of `src` and `p`, all of them above it. */
  lemma KeysAbove(bound: int, r: seq<KeyValuePair>, src: seq<KeyValuePair>, p: KeyValuePair)
    requires multiset(r) == multiset(src) + multiset{p}
    requires p.key > bound
    requires forall i :: 0 <= i < |src| ==> src[i].key > bound
    ensures forall i :: 0 <= i < |r| ==> r[i].key > bound
  {
    forall i | 0 <= i < |r|
      ensures r[i].key > bound
    {
      assert r[i] in multiset(r);
      if r[i] != p {
        assert r[i] in multiset(src);
        var j :| 0 <= j < |src| && src[j] == r[i];
      }
    }
  }

  /** A pair whose key is below every key of a sorted list can go in front of it. */
  lemma SortedCons(p: KeyValuePair, list: seq<KeyValuePair>)
    requires SortedByKey(list)
    requires forall i :: 0 <= i < |list| ==> p.key < list[i].key
    ensures SortedByKey([p] + list)
  {
    var r := [p] + list;
    forall i, j | 0 <= i < j < |r| ensures r[i].key < r[j].key {
      assert r[j] == list[j - 1];
      if i > 0 { assert r[i] == list[i - 1]; }
    }
  }

  /** Inserts `p` into a list sorted by key, at the place its key belongs. */
  function InsertByKey(list: seq<KeyValuePair>, p: KeyValuePair): (r: seq<KeyValuePair>)
    requires SortedByKey(list)
    requires forall i :: 0 <= i < |list| ==> list[i].key != p.key
    ensures SortedByKey(r)
    ensures multiset(r) == multiset(list) + multiset{p}
    decreases |list|
  {
    if list == [] then [p]
    else if CompareTo(p, list[0]) < 0 then
      SortedCons(p, list);
      [p] + list
    else
      SortedTail(list);
      var rest := InsertByKey(list[1..], p);
      assert list == [list[0]] + list[1..];
      KeysAbove(list[0].key, rest, list[1..], p);
      SortedCons(list[0], rest);
      [list[0]] + rest
  }

  /** Two lists sorted by key that hold the same pairs are the same list: the sorted order is unique. */
  lemma {:induction false} SortedUnique(s1: seq<KeyValuePair>, s2: seq<KeyValuePair>)
    requires SortedByKey(s1) && SortedByKey(s2)
    requires multiset(s1) == multiset(s2)
    ensures s1 == s2
    decreases |s1|
  {
    if s1 != [] {
      assert s1[0] in multiset(s2);
      SortedHeadsAgree(s1, s2);
      DropHead(s1);
      DropHead(s2);
      SortedTail(s1);
      SortedTail(s2);
      SortedUnique(s1[1..], s2[1..]);
      assert s1 == [s1[0]] + s1[1..];
      assert s2 == [s2[0]] + s2[1..];
    } else {
      assert |multiset(s2)| == 0;
    }
  }

  /** Two sorted lists over the same pairs start with the same pair: the one with the least key. */
  lemma SortedHeadsAgree(s1: seq<KeyValuePair>, s2: seq<KeyValuePair>)
    requires SortedByKey(s1) && SortedByKey(s2)
    requires multiset(s1) == multiset(s2) && |s1| > 0 && |s2| > 0
    ensures s1[0] == s2[0]
  {
    assert s2[0] in multiset(s1);
    assert s1[0] in multiset(s2);
    var i :| 0 <= i < |s1| && s1[i] == s2[0];
    var j :| 0 <= j < |s2| && s2[j] == s1[0];
    assert i == 0 || j == 0;
  }

  /** The pairs of a list without its head. */
  lemma DropHead(s: seq<KeyValuePair>)
    requires |s| > 0
    ensures multiset(s[1..]) == multiset(s) - multiset{s[0]}
  {
    assert s == [s[0]] + s[1..];
  }

  /** `new ArrayList<>(keyValuePairSet)`: the pairs of the set in some order, each once. */
  method ToList(pairs: set<KeyValuePair>) returns (list: seq<KeyValuePair>)
    requires DistinctKeys(pairs)
    ensures multiset(list) == multiset(pairs)
    ensures KeysDistinct(list)
  {
    list := [];
    var remaining := pairs;
    while remaining != {}
      invariant remaining <= pairs
      invariant multiset(list) + multiset(remaining) == multiset(pairs)
      invariant forall i :: 0 <= i < |list| ==> list[i] in pairs && list[i] !in remaining
      invariant KeysDistinct(list)
      decreases |remaining|
    {
      var p :| p in remaining;
      assert forall i :: 0 <= i < |list| ==> list[i].key != p.key;
      list := list + [p];
      remaining := remaining - {p};
    }
  }

  /** `Collections.sort(keyValuePairList)`: the same pairs, ascending by key. */
  method Sort(list: seq<KeyValuePair>) returns (sorted: seq<KeyValuePair>)
    requires KeysDistinct(list)
    ensures SortedByKey(sorted)
    ensures multiset(sorted) == multiset(list)
  {
    sorted := [];
    var i := 0;
    while i < |list|
      invariant 0 <= i <= |list|
      invariant SortedByKey(sorted)
      invariant multiset(sorted) == multiset(list[..i])
    {
      forall k | 0 <= k < |sorted|
        ensures sorted[k].key != list[i].key
      {
        assert sorted[k] in multiset(list[..i]);
      }
      assert list[..i + 1] == list[..i] + [list[i]];
      sorted := InsertByKey(sorted, list[i]);
      i := i + 1;
    }
    assert list[..i] == list;
  }
}

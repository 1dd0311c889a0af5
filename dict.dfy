/**
 * A Python `dict` with string keys, as an association list: each key once, in the order of
 * its first insertion, which is also the order `json.dumps` writes them in.
 */
module Dicts {
  import opened Wrappers

  type Entries<V> = seq<(string, V)>

  function Keys<V>(d: Entries<V>): (ks: seq<string>)
    ensures |ks| == |d| && forall i :: 0 <= i < |d| ==> ks[i] == d[i].0
  {
    seq(|d|, i requires 0 <= i < |d| => d[i].0)
  }

  /** The keys of a non-empty dict are those of all but its last entry, then the last key. */
  lemma {:induction false} KeysLast<V>(d: Entries<V>)
    requires d != []
    ensures Keys(d) == Keys(d[..|d| - 1]) + [d[|d| - 1].0]
  {
    assert forall i :: 0 <= i < |d| - 1 ==> d[..|d| - 1][i] == d[i];
  }

  predicate DistinctKeys<V>(d: Entries<V>) {
    forall i, j :: 0 <= i < j < |d| ==> d[i].0 != d[j].0
  }

  /** The first position at or after `from` that holds `key`, or `|d|`. */
  function KeyIndexFrom<V>(d: Entries<V>, key: string, from: nat): (i: nat)
    requires from <= |d|
    ensures from <= i <= |d|
    ensures forall j :: from <= j < i ==> d[j].0 != key
    ensures i < |d| ==> d[i].0 == key
    decreases |d| - from
  {
    if from == |d| || d[from].0 == key then from else KeyIndexFrom(d, key, from + 1)
  }

  function KeyIndex<V>(d: Entries<V>, key: string): nat {
    KeyIndexFrom(d, key, 0)
  }

  /** The search finds the first position holding the key, and no other. */
  lemma {:induction false} KeyIndexIs<V>(d: Entries<V>, key: string, i: nat, from: nat)
    requires from <= i <= |d|
    requires forall j :: from <= j < i ==> d[j].0 != key
    requires i < |d| ==> d[i].0 == key
    ensures KeyIndexFrom(d, key, from) == i
    decreases i - from
  {
    if from < i {
      KeyIndexIs(d, key, i, from + 1);
    }
  }

  /** `d.get(key)`. */
  function Get<V>(d: Entries<V>, key: string): (r: Option<V>)
    ensures r.Some? <==> key in Keys(d)
  {
    var i := KeyIndex(d, key);
    if i < |d| then Some(d[i].1) else None
  }

  /** `d[key] = value`: a present key keeps its place and takes the new value; a new key goes last. */
  function Put<V>(d: Entries<V>, key: string, value: V): (e: Entries<V>)
    ensures |e| == if key in Keys(d) then |d| else |d| + 1
  {
    var i := KeyIndex(d, key);
    if i < |d| then d[i := (key, value)] else d + [(key, value)]
  }

  /** Assigning a key adds it at the end if it was new and leaves the key order alone otherwise. */
  lemma {:induction false} PutKeys<V>(d: Entries<V>, key: string, value: V)
    ensures Keys(Put(d, key, value)) == if key in Keys(d) then Keys(d) else Keys(d) + [key]
  {
    var i := KeyIndex(d, key);
    if i < |d| {
      assert Keys(Put(d, key, value)) == Keys(d);
    } else {
      assert key !in Keys(d);
      assert Keys(Put(d, key, value)) == Keys(d) + [key];
    }
  }

  /** After `d[key] = value`, `key` reads `value` and every other key reads what it read before. */
  lemma {:induction false} PutGet<V>(d: Entries<V>, key: string, value: V, other: string)
    ensures Get(Put(d, key, value), key) == Some(value)
    ensures other != key ==> Get(Put(d, key, value), other) == Get(d, other)
  {
    var i := KeyIndex(d, key);
    var e := Put(d, key, value);
    KeyIndexIs(e, key, i, 0);
    if other != key {
      var j := KeyIndex(d, other);
      if i < |d| {
        KeyIndexIs(e, other, j, 0);
      } else {
        KeyIndexIs(e, other, if j < |d| then j else |e|, 0);
      }
    }
  }

  /** Assigning a key never duplicates one. */
  lemma {:induction false} PutDistinct<V>(d: Entries<V>, key: string, value: V)
    requires DistinctKeys(d)
    ensures DistinctKeys(Put(d, key, value))
  {
    PutKeys(d, key, value);
    var e := Put(d, key, value);
    assert forall i :: 0 <= i < |e| ==> e[i].0 == Keys(e)[i];
  }
}

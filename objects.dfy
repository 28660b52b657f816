/**
 * JavaScript objects whose key order matters, as sequences of key/value
 * pairs in insertion order: reading a key, and assigning `obj[key] = value`,
 * which keeps an existing key where it is and appends a new one.
 */
module Objects {
  import opened Wrappers

  /** No key occurs twice. */
  predicate DistinctKeys<V>(obj: seq<(string, V)>)
  {
    forall i, j :: 0 <= i < j < |obj| ==> obj[i].0 != obj[j].0
  }

  /** The keys in insertion order (`Object.keys`). */
  function Keys<V>(obj: seq<(string, V)>): (ks: seq<string>)
    ensures |ks| == |obj| && forall i :: 0 <= i < |obj| ==> ks[i] == obj[i].0
  {
    seq(|obj|, i requires 0 <= i < |obj| => obj[i].0)
  }

  /** The position of `key`, or the number of entries when it is absent. */
  function KeyIndex<V>(obj: seq<(string, V)>, key: string): (i: nat)
    ensures i <= |obj|
    ensures forall j :: 0 <= j < i ==> obj[j].0 != key
    ensures i < |obj| ==> obj[i].0 == key
  {
    if |obj| == 0 then 0
    else if obj[0].0 == key then 0
    else 1 + KeyIndex(obj[1..], key)
  }

  /** `obj[key]`: the value stored under `key`, or `None` (`undefined`). */
  function Get<V>(obj: seq<(string, V)>, key: string): (r: Option<V>)
    ensures r.None? <==> key !in Keys(obj)
  {
    var i := KeyIndex(obj, key);
    if i < |obj| then Some(obj[i].1) else None
  }

  /**
   * `obj[key] = value`: afterwards `key` reads `value`, every other key
   * reads what it read before, and the keys keep their order, with `key`
   * appended when it is new.
   */
  function Put<V>(obj: seq<(string, V)>, key: string, value: V): (r: seq<(string, V)>)
    ensures Get(r, key) == Some(value)
    ensures forall k :: k != key ==> Get(r, k) == Get(obj, k)
    ensures Keys(r) == if key in Keys(obj) then Keys(obj) else Keys(obj) + [key]
    ensures DistinctKeys(obj) ==> DistinctKeys(r)
  {
    var i := KeyIndex(obj, key);
    var r := if i < |obj| then obj[i := (key, value)] else obj + [(key, value)];
    assert Keys(r) == if key in Keys(obj) then Keys(obj) else Keys(obj) + [key];
    forall k | k != key
      ensures Get(r, k) == Get(obj, k)
    {
      PutOther(obj, key, value, k, i, r);
    }
    r
  }

  lemma PutOther<V>(obj: seq<(string, V)>, key: string, value: V, k: string, i: nat, r: seq<(string, V)>)
    requires k != key && i == KeyIndex(obj, key)
    requires r == if i < |obj| then obj[i := (key, value)] else obj + [(key, value)]
    ensures Get(r, k) == Get(obj, k)
  {
    var j := KeyIndex(obj, k);
    if j < |obj| {
      PutOtherPresent(obj, key, value, k, i, r);
    } else {
      PutOtherAbsent(obj, key, value, k, i, r);
    }
  }

  lemma PutOtherPresent<V>(obj: seq<(string, V)>, key: string, value: V, k: string, i: nat, r: seq<(string, V)>)
    requires k != key && i == KeyIndex(obj, key) && KeyIndex(obj, k) < |obj|
    requires r == if i < |obj| then obj[i := (key, value)] else obj + [(key, value)]
    ensures Get(r, k) == Get(obj, k)
  {
    var j := KeyIndex(obj, k);
    assert r[j] == obj[j];
    assert forall m :: 0 <= m < j ==> r[m].0 != k by {
      forall m | 0 <= m < j
        ensures r[m].0 != k
      {
        if m != i {
          assert r[m] == obj[m];
        }
      }
    }
    KeyIndexAt(r, k, j);
  }

  lemma PutOtherAbsent<V>(obj: seq<(string, V)>, key: string, value: V, k: string, i: nat, r: seq<(string, V)>)
    requires k != key && i == KeyIndex(obj, key) && KeyIndex(obj, k) == |obj|
    requires r == if i < |obj| then obj[i := (key, value)] else obj + [(key, value)]
    ensures Get(r, k) == None
  {
    forall m | 0 <= m < |r|
      ensures r[m].0 != k
    {
      if m < |obj| && m != i {
        assert r[m] == obj[m];
      }
    }
    KeyIndexAt(r, k, |r|);
  }

  /** The first position holding `key` is the key's index. */
  lemma {:induction false} KeyIndexAt<V>(obj: seq<(string, V)>, key: string, j: nat)
    requires j <= |obj| && (j < |obj| ==> obj[j].0 == key)
    requires forall m :: 0 <= m < j ==> obj[m].0 != key
    ensures KeyIndex(obj, key) == j
  {
    if |obj| > 0 && j > 0 {
      KeyIndexAt(obj[1..], key, j - 1);
    }
  }

  /** In an object with distinct keys, the entry at position `i` is what its key reads. */
  lemma GetAt<V>(obj: seq<(string, V)>, i: nat)
    requires DistinctKeys(obj) && i < |obj|
    ensures Get(obj, obj[i].0) == Some(obj[i].1)
  {
  }

  /** Assigning a key that is not yet present appends it. */
  lemma PutNew<V>(obj: seq<(string, V)>, key: string, value: V)
    requires key !in Keys(obj)
    ensures Put(obj, key, value) == obj + [(key, value)]
  {
    assert KeyIndex(obj, key) == |obj|;
  }
}

/** Lists filed into buckets by a key, each bucket in list order. */
module Filing {

  datatype Key = Key(layer: nat, hash: nat)

  /** The indices of the entries filed under `key`, ascending. */
  function FiledAt(keys: seq<Key>, key: Key): (ks: seq<nat>)
    ensures forall i :: 0 <= i < |ks| ==> ks[i] < |keys|
    decreases |keys|
  {
    if keys == [] then []
    else
      var n := |keys| - 1;
      var ks := FiledAt(keys[..n], key);
      if keys[n] == key then ks + [n] else ks
  }

  /** Every index in `ks` has the key. */
  predicate AllUnder(keys: seq<Key>, ks: seq<nat>, key: Key) {
    forall k :: k in ks ==> k < |keys| && keys[k] == key
  }

  predicate Ascending(ks: seq<nat>) {
    forall i, j :: 0 <= i < j < |ks| ==> ks[i] < ks[j]
  }

  lemma AllUnderPrefix(keys: seq<Key>, n: nat, ks: seq<nat>, key: Key)
    requires n <= |keys| && AllUnder(keys[..n], ks, key)
    ensures AllUnder(keys, ks, key) && forall k :: k in ks ==> k < n
  {
    forall k | k in ks
      ensures k < n && keys[k] == key
    {
      assert keys[..n][k] == key;
    }
  }

  lemma {:induction false} FiledAtIs(keys: seq<Key>, key: Key)
    ensures var ks := FiledAt(keys, key);
            Ascending(ks) && AllUnder(keys, ks, key) && forall k :: 0 <= k < |keys| && keys[k] == key ==> k in ks
    decreases |keys|
  {
    if keys != [] {
      var n := |keys| - 1;
      var before := FiledAt(keys[..n], key);
      FiledAtIs(keys[..n], key);
      AllUnderPrefix(keys, n, before, key);
      forall k | 0 <= k < n && keys[k] == key
        ensures k in before
      {
        assert keys[..n][k] == key;
      }
      if keys[n] == key {
        forall i | 0 <= i < |before|
          ensures before[i] < n
        {
          assert before[i] in before;
        }
      }
    }
  }

  lemma FiledSnoc(keys: seq<Key>, last: Key, key: Key)
    ensures last == key ==> FiledAt(keys + [last], key) == FiledAt(keys, key) + [|keys|]
    ensures last != key ==> FiledAt(keys + [last], key) == FiledAt(keys, key)
  {
    assert (keys + [last])[..|keys|] == keys;
  }

  /** `n` entries under one and the same key. */
  function Repeat(key: Key, n: nat): (keys: seq<Key>)
    ensures |keys| == n && forall i :: 0 <= i < n ==> keys[i] == key
  {
    seq(n, _ => key)
  }

  lemma {:induction false} FiledRepeat(keys: seq<Key>, last: Key, n: nat, key: Key)
    ensures key != last ==> FiledAt(keys + Repeat(last, n), key) == FiledAt(keys, key)
    ensures key == last ==>
              FiledAt(keys + Repeat(last, n), key) == FiledAt(keys, key) + seq(n, i requires 0 <= i < n => |keys| + i)
  {
    if n == 0 {
      assert keys + Repeat(last, 0) == keys;
    } else {
      FiledRepeat(keys, last, n - 1, key);
      FiledSnoc(keys + Repeat(last, n - 1), last, key);
      assert keys + Repeat(last, n - 1) + [last] == keys + Repeat(last, n);
    }
  }

  lemma {:induction false} FiledNone(keys: seq<Key>, key: Key)
    requires forall k :: 0 <= k < |keys| ==> keys[k] != key
    ensures FiledAt(keys, key) == []
    decreases |keys|
  {
    if keys != [] {
      FiledNone(keys[..|keys| - 1], key);
    }
  }
}

/**
  The bookkeeping of a search that goes through the layers in order, through
  each bucket from its newest entry to its oldest, and keeps an entry only if
  its priority is strictly higher than that of the entry it holds.
 */
module Scan {
  import opened Filing

  /** Higher priority first, then the earlier layer, then the later entry. */
  ghost predicate Beats(keys: seq<Key>, prios: seq<nat>, k: nat, j: nat)
    requires k < |keys| == |prios| && j < |keys|
  {
    || prios[k] > prios[j]
    || (prios[k] == prios[j] && (keys[k].layer < keys[j].layer || (keys[k].layer == keys[j].layer && k > j)))
  }

  ghost predicate Indices(cand: set<nat>, n: nat) {
    forall k :: k in cand ==> k < n
  }

  /** `k` beats every other candidate. */
  ghost predicate WinnerAmong(keys: seq<Key>, prios: seq<nat>, cand: set<nat>, k: nat)
    requires |keys| == |prios| && Indices(cand, |keys|)
  {
    k in cand && forall j :: j in cand && j != k ==> Beats(keys, prios, k, j)
  }

  /** `j` has been looked at when the search is in `layer` and has come down to entry `bound` there. */
  ghost predicate Scanned(keys: seq<Key>, layer: nat, bound: nat, j: nat)
    requires j < |keys|
  {
    keys[j].layer < layer || (keys[j].layer == layer && j >= bound)
  }

  datatype Held = Nothing | Entry(index: nat)

  function HeldPriority(prios: seq<nat>, w: Held): nat
    requires w.Entry? ==> w.index < |prios|
  {
    if w.Nothing? then 0 else prios[w.index]
  }

  /** The search holds the winner among the candidates it has looked at. */
  ghost predicate Holds(keys: seq<Key>, prios: seq<nat>, cand: set<nat>, layer: nat, bound: nat, w: Held)
    requires |keys| == |prios| && Indices(cand, |keys|)
  {
    match w
    case Nothing => forall j :: j in cand ==> !Scanned(keys, layer, bound, j)
    case Entry(k) =>
      && k in cand && Scanned(keys, layer, bound, k)
      && forall j :: j in cand && j != k && Scanned(keys, layer, bound, j) ==> Beats(keys, prios, k, j)
  }

  /** How far the search has come when `i` entries of the bucket `ks` are left. */
  function BoundAt(ks: seq<nat>, i: nat, n: nat): nat
    requires i <= |ks|
  {
    if i < |ks| then ks[i] else n
  }

  lemma ScanStep(keys: seq<Key>, prios: seq<nat>, cand: set<nat>, layer: nat, h: nat, ks: seq<nat>, i: nat, w: Held)
    requires |keys| == |prios| && Indices(cand, |keys|)
    requires forall k :: k in cand ==> prios[k] > 0
    requires ks == FiledAt(keys, Key(layer, h)) && 0 < i <= |ks|
    requires forall j :: j in cand && keys[j].layer == layer ==> keys[j].hash == h
    requires Holds(keys, prios, cand, layer, BoundAt(ks, i, |keys|), w)
    ensures var k := ks[i - 1];
            && (k in cand && prios[k] > HeldPriority(prios, w) ==> Holds(keys, prios, cand, layer, k, Entry(k)))
            && (k in cand && prios[k] <= HeldPriority(prios, w) ==> Holds(keys, prios, cand, layer, k, w))
            && (k !in cand ==> Holds(keys, prios, cand, layer, k, w))
  {
    var k := ks[i - 1];
    var bound := BoundAt(ks, i, |keys|);
    FiledAtIs(keys, Key(layer, h));
    forall j | j in cand
      ensures Scanned(keys, layer, k, j) <==> j == k || Scanned(keys, layer, bound, j)
    {
      if keys[j].layer == layer {
        assert keys[j] == Key(layer, h);
        var p :| 0 <= p < |ks| && ks[p] == j;
        assert p < i - 1 || p == i - 1 || p >= i;
      }
    }
  }

  lemma ScanLayerDone(keys: seq<Key>, prios: seq<nat>, cand: set<nat>, layer: nat, h: nat, ks: seq<nat>, w: Held)
    requires |keys| == |prios| && Indices(cand, |keys|)
    requires ks == FiledAt(keys, Key(layer, h))
    requires forall j :: j in cand && keys[j].layer == layer ==> keys[j].hash == h
    requires Holds(keys, prios, cand, layer, BoundAt(ks, 0, |keys|), w)
    ensures Holds(keys, prios, cand, layer + 1, |keys|, w)
  {
    var bound := BoundAt(ks, 0, |keys|);
    FiledAtIs(keys, Key(layer, h));
    forall j | j in cand
      ensures Scanned(keys, layer + 1, |keys|, j) <==> Scanned(keys, layer, bound, j)
    {
      if keys[j].layer == layer {
        assert keys[j] == Key(layer, h);
        var p :| 0 <= p < |ks| && ks[p] == j;
      }
    }
  }
}

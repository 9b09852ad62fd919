/**
  Content ids on disk: a block is stored with local ids and the names they
  stand for, so that it can be read back when the ids of the names differ.
 */
module NodeIds {
  import opened Numbers
  import opened NodeBulk

  /** Reserved value of the id caches for "not set". */
  const UNSET: u16 := 0xFFFF

  type NameIdMapping = map<u16, string>

  // ---------------------------------------------------------------------------
  // Renumbering
  // ---------------------------------------------------------------------------

  /** The contents of the nodes in the order of their first appearance. */
  function FirstSeen(nodes: seq<MapNode>): seq<u16> {
    if nodes == [] then []
    else
      var before := FirstSeen(nodes[..|nodes| - 1]);
      var c := nodes[|nodes| - 1].param0;
      if c in before then before else before + [c]
  }

  ghost predicate NoRepeats(seen: seq<u16>) {
    forall i, j :: 0 <= i < j < |seen| ==> seen[i] != seen[j]
  }

  lemma {:induction false} FirstSeenOnce(nodes: seq<MapNode>)
    ensures NoRepeats(FirstSeen(nodes)) && |FirstSeen(nodes)| <= |nodes|
    ensures forall n :: n in nodes ==> n.param0 in FirstSeen(nodes)
    ensures forall c :: c in FirstSeen(nodes) ==> Uses(nodes, c)
  {
    if nodes != [] {
      var rest, last := nodes[..|nodes| - 1], nodes[|nodes| - 1];
      FirstSeenOnce(rest);
      assert nodes == rest + [last];
      forall c | c in FirstSeen(nodes)
        ensures Uses(nodes, c)
      {
        if c == last.param0 {
          assert last in nodes;
        } else {
          assert Uses(rest, c);
          var n :| n in rest && n.param0 == c;
          assert n in nodes;
        }
      }
    }
  }

  /** `i` is the first node with the content `c`. */
  ghost predicate FirstAt(nodes: seq<MapNode>, c: u16, i: nat) {
    i < |nodes| && nodes[i].param0 == c && forall j :: 0 <= j < i ==> nodes[j].param0 != c
  }

  /** A content is listed before another exactly if its first node comes before the first of the other. */
  lemma {:induction false} FirstSeenInOrder(nodes: seq<MapNode>, a: nat, b: nat, i: nat, j: nat)
    requires a < |FirstSeen(nodes)| && b < |FirstSeen(nodes)|
    requires FirstAt(nodes, FirstSeen(nodes)[a], i) && FirstAt(nodes, FirstSeen(nodes)[b], j)
    ensures a < b <==> i < j
  {
    var seen := FirstSeen(nodes);
    var n := |nodes| - 1;
    var rest, last := nodes[..n], nodes[n].param0;
    var before := FirstSeen(rest);
    assert i < n ==> FirstAt(rest, seen[a], i);
    assert j < n ==> FirstAt(rest, seen[b], j);
    if a < |before| && b < |before| {
      FirstBefore(nodes, seen[a], i);
      FirstBefore(nodes, seen[b], j);
      FirstSeenInOrder(rest, a, b, i, j);
    } else if a < |before| {
      FirstBefore(nodes, seen[a], i);
      assert b == |before| && seen[b] == last && last !in before;
      FirstBehind(nodes, last, j);
    } else if b < |before| {
      FirstBefore(nodes, seen[b], j);
      assert a == |before| && seen[a] == last && last !in before;
      FirstBehind(nodes, last, i);
    } else {
      assert a == b;
    }
  }

  lemma FirstBefore(nodes: seq<MapNode>, c: u16, i: nat)
    requires nodes != [] && c in FirstSeen(nodes[..|nodes| - 1]) && FirstAt(nodes, c, i)
    ensures i < |nodes| - 1
  {
    FirstSeenOnce(nodes[..|nodes| - 1]);
    var n :| n in nodes[..|nodes| - 1] && n.param0 == c;
  }

  lemma SeenBefore(nodes: seq<MapNode>, i: nat)
    requires i < |nodes| - 1
    ensures nodes[i].param0 in FirstSeen(nodes[..|nodes| - 1])
  {
    var rest := nodes[..|nodes| - 1];
    FirstSeenOnce(rest);
    assert nodes[i] in rest;
  }

  lemma FirstBehind(nodes: seq<MapNode>, c: u16, i: nat)
    requires nodes != [] && c !in FirstSeen(nodes[..|nodes| - 1]) && FirstAt(nodes, c, i)
    ensures i == |nodes| - 1
  {
    if i < |nodes| - 1 {
      SeenBefore(nodes, i);
    }
  }

  ghost predicate Uses(nodes: seq<MapNode>, c: u16) {
    exists n :: n in nodes && n.param0 == c
  }

  function IndexIn(seen: seq<u16>, c: u16): (i: nat)
    ensures i <= |seen| && (i < |seen| <==> c in seen)
    ensures i < |seen| ==> seen[i] == c
  {
    if seen == [] then 0 else if seen[0] == c then 0 else 1 + IndexIn(seen[1..], c)
  }

  /** The local id of a content is its place in the order of first appearance. */
  function Renumbered(nodes: seq<MapNode>, seen: seq<u16>): (r: seq<MapNode>)
    ensures |r| == |nodes|
    ensures forall i :: 0 <= i < |nodes| ==> r[i] == LocalNode(seen, nodes[i])
  {
    seq(|nodes|, i requires 0 <= i < |nodes| => LocalNode(seen, nodes[i]))
  }

  function LocalNode(seen: seq<u16>, n: MapNode): MapNode {
    n.SetContent(LocalId(seen, n.param0))
  }

  function LocalId(seen: seq<u16>, c: u16): u16 {
    if c in seen && IndexIn(seen, c) < 0xFFFF then IndexIn(seen, c) else UNSET
  }

  function NamesOf(seen: seq<u16>, nameOf: u16 -> string): (m: NameIdMapping)
    ensures forall id: u16 :: id in m <==> id < |seen|
    ensures forall id: u16 :: id < |seen| ==> m[id] == nameOf(seen[id])
  {
    map id: u16 | id < |seen| :: nameOf(seen[id])
  }

  lemma {:induction false} IndexInIs(seen: seq<u16>, i: nat)
    requires i < |seen| && NoRepeats(seen)
    ensures IndexIn(seen, seen[i]) == i
  {
    if i > 0 {
      IndexInIs(seen[1..], i - 1);
    }
  }

  /** Ids already given do not change when more contents appear. */
  lemma IndexInGrows(seen: seq<u16>, more: seq<u16>, c: u16)
    requires seen <= more && c in seen
    requires NoRepeats(more)
    ensures IndexIn(more, c) == IndexIn(seen, c)
  {
    var i := IndexIn(seen, c);
    assert more[i] == c;
    IndexInIs(more, i);
  }

  lemma {:induction false} FirstSeenGrows(nodes: seq<MapNode>, k: nat)
    requires k <= |nodes|
    ensures FirstSeen(nodes[..k]) <= FirstSeen(nodes)
    decreases |nodes|
  {
    if k == |nodes| {
      assert nodes[..k] == nodes;
    } else {
      var n := |nodes| - 1;
      FirstSeenGrows(nodes[..n], k);
      assert nodes[..n][..k] == nodes[..k];
    }
  }

  /** The cache holds exactly the ids given so far. */
  ghost predicate Caches(mapping: seq<u16>, seen: seq<u16>) {
    && |mapping| == 0x1_0000 && |seen| < 0xFFFF
    && forall c: u16 :: mapping[c] == LocalId(seen, c)
  }

  lemma CacheGrows(mapping: seq<u16>, seen: seq<u16>, c: u16)
    requires Caches(mapping, seen) && c !in seen && |seen| + 1 < 0xFFFF && NoRepeats(seen)
    ensures Caches(mapping[c as int := |seen|], seen + [c])
  {
    var more := seen + [c];
    IndexInIs(more, |seen|);
    forall d: u16
      ensures mapping[c as int := |seen|][d] == LocalId(more, d)
    {
      if d in seen {
        IndexInGrows(seen, more, d);
      }
    }
  }

  function SeenNext(seen: seq<u16>, c: u16): seq<u16> {
    if c in seen then seen else seen + [c]
  }

  lemma CacheNext(mapping: seq<u16>, seen: seq<u16>, c: u16)
    requires Caches(mapping, seen) && NoRepeats(seen) && |seen| + 1 < 0xFFFF
    ensures mapping[c] == UNSET <==> c !in seen
    ensures var id := if c in seen then mapping[c] else |seen|;
            id == LocalId(SeenNext(seen, c), c) && Caches(mapping[c as int := id], SeenNext(seen, c))
  {
    if c !in seen {
      CacheGrows(mapping, seen, c);
      IndexInIs(seen + [c], |seen|);
    } else {
      assert mapping[c as int := mapping[c]] == mapping;
    }
  }

  lemma SeenSoFar(nodes: seq<MapNode>, i: nat)
    requires i < |nodes|
    ensures FirstSeen(nodes[..i + 1]) == SeenNext(FirstSeen(nodes[..i]), nodes[i].param0)
    ensures NoRepeats(FirstSeen(nodes[..i])) && |FirstSeen(nodes[..i])| <= i
    ensures LocalId(FirstSeen(nodes[..i + 1]), nodes[i].param0) == LocalId(FirstSeen(nodes), nodes[i].param0)
  {
    assert nodes[..i + 1][..i] == nodes[..i];
    FirstSeenOnce(nodes[..i]);
    FirstSeenOnce(nodes);
    FirstSeenGrows(nodes, i + 1);
    IndexInGrows(FirstSeen(nodes[..i + 1]), FirstSeen(nodes), nodes[i].param0);
  }

  lemma NamesNext(seen: seq<u16>, c: u16, nameOf: u16 -> string)
    requires |seen| < 0xFFFF
    ensures c !in seen ==> NamesOf(SeenNext(seen, c), nameOf) == NamesOf(seen, nameOf)[|seen| := nameOf(c)]
  {
  }

  /** Looks a content up in the cache, or gives it the next id. */
  method AssignId(mapping: array<u16>, globalId: u16, ghost seen: seq<u16>, idCounter: u16, nimap: NameIdMapping,
                  nameOf: u16 -> string)
    returns (id: u16, idCounter': u16, nimap': NameIdMapping)
    requires Caches(mapping[..], seen) && NoRepeats(seen) && |seen| + 1 < 0xFFFF
    requires idCounter == |seen| && nimap == NamesOf(seen, nameOf)
    modifies mapping
    ensures Caches(mapping[..], SeenNext(seen, globalId)) && id == LocalId(SeenNext(seen, globalId), globalId)
    ensures idCounter' == |SeenNext(seen, globalId)| && nimap' == NamesOf(SeenNext(seen, globalId), nameOf)
  {
    CacheNext(mapping[..], seen, globalId);
    NamesNext(seen, globalId, nameOf);
    id, idCounter', nimap' := mapping[globalId], idCounter, nimap;
    ghost var before := mapping[..];
    if id == UNSET {
      id := idCounter;
      idCounter' := idCounter + 1;
      mapping[globalId] := id;
      nimap' := nimap[id := nameOf(globalId)];
    }
    assert mapping[..] == before[globalId as int := id];
  }

  method GetBlockNodeIdMapping(nodes: array<MapNode>, nameOf: u16 -> string) returns (nimap: NameIdMapping)
    requires nodes.Length < 0xFFFF
    modifies nodes
    ensures nodes[..] == Renumbered(old(nodes[..]), FirstSeen(old(nodes[..])))
    ensures nimap == NamesOf(FirstSeen(old(nodes[..])), nameOf)
  {
    var mapping := new u16[0x1_0000](_ => UNSET);
    ghost var before, seen: seq<u16> := nodes[..], [];
    ghost var all := FirstSeen(before);
    nimap := map[];
    var idCounter: u16 := 0;
    assert before[..0] == [];
    for i := 0 to nodes.Length
      invariant seen == FirstSeen(before[..i]) && Caches(mapping[..], seen)
      invariant idCounter == |seen| && nimap == NamesOf(seen, nameOf)
      invariant forall j :: 0 <= j < nodes.Length ==> nodes[j] == if j < i then LocalNode(all, before[j]) else before[j]
    {
      SeenSoFar(before, i);
      var globalId := nodes[i].param0;
      var id;
      id, idCounter, nimap := AssignId(mapping, globalId, seen, idCounter, nimap, nameOf);
      nodes[i] := nodes[i].SetContent(id);
      seen := SeenNext(seen, globalId);
    }
    assert before[..nodes.Length] == before;
  }

  /** Local ids count up from 0: a content seen for the first time gets the number of contents seen before it. */
  lemma LocalIdsCountUp(nodes: seq<MapNode>, i: nat)
    requires i < |nodes| < 0xFFFF
    ensures var id := Renumbered(nodes, FirstSeen(nodes))[i].param0;
            var before := FirstSeen(nodes[..i]);
            && id < |FirstSeen(nodes)|
            && (if nodes[i].param0 in before then id < |before| && before[id] == nodes[i].param0 else id == |before|)
  {
    var before := FirstSeen(nodes[..i]);
    SeenSoFar(nodes, i);
    FirstSeenOnce(nodes);
    FirstSeenGrows(nodes, i + 1);
    if nodes[i].param0 !in before {
      IndexInIs(before + [nodes[i].param0], |before|);
    } else {
      IndexInGrows(before, FirstSeen(nodes), nodes[i].param0);
    }
  }

  // ---------------------------------------------------------------------------
  // Renaming back
  // ---------------------------------------------------------------------------

  /** The id of a name: the registered one, or the one allocated for an unknown node. */
  function IdFor(ids: map<string, u16>, allocate: string -> u16, name: string): u16 {
    if name in ids then ids[name] else allocate(name)
  }

  /** A local id must have a name, and if the name is new, a free id. */
  ghost predicate Resolvable(nimap: NameIdMapping, ids: map<string, u16>, allocate: string -> u16, localId: u16) {
    localId in nimap && (nimap[localId] in ids || allocate(nimap[localId]) != CONTENT_IGNORE)
  }

  ghost predicate AllResolvable(nodes: seq<MapNode>, nimap: NameIdMapping, ids: map<string, u16>,
                                allocate: string -> u16) {
    forall i :: 0 <= i < |nodes| ==> Resolvable(nimap, ids, allocate, nodes[i].param0)
  }

  function GlobalNode(nimap: NameIdMapping, ids: map<string, u16>, allocate: string -> u16, n: MapNode): MapNode {
    if n.param0 in nimap then n.SetContent(IdFor(ids, allocate, nimap[n.param0])) else n
  }

  function Resolved(nodes: seq<MapNode>, nimap: NameIdMapping, ids: map<string, u16>,
                    allocate: string -> u16): (r: seq<MapNode>)
    ensures |r| == |nodes|
    ensures forall i :: 0 <= i < |nodes| ==> r[i] == GlobalNode(nimap, ids, allocate, nodes[i])
  {
    seq(|nodes|, i requires 0 <= i < |nodes| => GlobalNode(nimap, ids, allocate, nodes[i]))
  }

  /** Allocations made so far give every name the id it gets anyway. */
  ghost predicate SameIds(ids': map<string, u16>, ids: map<string, u16>, allocate: string -> u16) {
    && (forall name :: name in ids ==> name in ids' && ids'[name] == ids[name])
    && (forall name :: name in ids' && name !in ids ==> ids'[name] == allocate(name) != CONTENT_IGNORE)
  }

  ghost predicate CachesGlobal(cache: seq<u16>, nimap: NameIdMapping, ids: map<string, u16>, allocate: string -> u16) {
    && |cache| == 0x1_0000
    && forall k: u16 :: cache[k] != UNSET ==>
         Resolvable(nimap, ids, allocate, k) && cache[k] == IdFor(ids, allocate, nimap[k])
  }

  method GlobalId(localId: u16, nimap: NameIdMapping, ids0: map<string, u16>, allocate: string -> u16,
                  cache: array<u16>,
                  ghost ids: map<string, u16>)
    returns (ok: bool, globalId: u16, ids': map<string, u16>)
    requires CachesGlobal(cache[..], nimap, ids, allocate) && SameIds(ids0, ids, allocate)
    modifies cache
    ensures ok <==> Resolvable(nimap, ids, allocate, localId)
    ensures ok ==> globalId == IdFor(ids, allocate, nimap[localId])
    ensures CachesGlobal(cache[..], nimap, ids, allocate) && SameIds(ids', ids, allocate)
  {
    ok, globalId, ids' := true, cache[localId], ids0;
    if globalId != UNSET {
      return;
    }
    if localId !in nimap {
      ok := false;
      return;
    }
    var name := nimap[localId];
    if name in ids0 {
      globalId := ids0[name];
    } else {
      globalId := allocate(name);
      if globalId == CONTENT_IGNORE {
        ok := false;
        return;
      }
      ids' := ids0[name := globalId];
    }
    ghost var before := cache[..];
    cache[localId] := globalId;
    assert cache[..] == before[localId as int := globalId];
  }

  /** Fails exactly if some local id cannot be resolved. */
  method CorrectBlockNodeIds(nimap: NameIdMapping, nodes: array<MapNode>, ids: map<string, u16>,
                             allocate: string -> u16)
    returns (ok: bool, ids': map<string, u16>)
    modifies nodes
    ensures ok <==> AllResolvable(old(nodes[..]), nimap, ids, allocate)
    ensures ok ==> nodes[..] == Resolved(old(nodes[..]), nimap, ids, allocate)
    ensures SameIds(ids', ids, allocate)
  {
    var cache := new u16[0x1_0000](_ => UNSET);
    ghost var before := nodes[..];
    ids' := ids;
    for i := 0 to nodes.Length
      invariant CachesGlobal(cache[..], nimap, ids, allocate) && SameIds(ids', ids, allocate)
      invariant forall j :: 0 <= j < i ==> Resolvable(nimap, ids, allocate, before[j].param0)
      invariant forall j :: 0 <= j < nodes.Length ==>
                  nodes[j] == if j < i then GlobalNode(nimap, ids, allocate, before[j]) else before[j]
    {
      var globalId;
      ok, globalId, ids' := GlobalId(nodes[i].param0, nimap, ids', allocate, cache, ids);
      if !ok {
        return;
      }
      nodes[i] := nodes[i].SetContent(globalId);
    }
    ok := true;
  }

  /** The name is registered or can be given an id; the reserved id 127 says that it cannot. */
  ghost predicate Loadable(n: MapNode, nameOf: u16 -> string, ids: map<string, u16>, allocate: string -> u16) {
    nameOf(n.param0) in ids || allocate(nameOf(n.param0)) != 127
  }

  /** The node with the id its name has at the time of loading. */
  function Renamed(n: MapNode, nameOf: u16 -> string, ids: map<string, u16>, allocate: string -> u16): MapNode {
    n.SetContent(IdFor(ids, allocate, nameOf(n.param0)))
  }

  lemma NodeRoundTrip(seen: seq<u16>, n: MapNode, nameOf: u16 -> string, ids: map<string, u16>, allocate: string -> u16)
    requires n.param0 in seen && |seen| < 0xFFFF
    ensures GlobalNode(NamesOf(seen, nameOf), ids, allocate, LocalNode(seen, n)) == Renamed(n, nameOf, ids, allocate)
    ensures Resolvable(NamesOf(seen, nameOf), ids, allocate, LocalNode(seen, n).param0) <==>
            Loadable(n, nameOf, ids, allocate)
  {
  }

  lemma IsSeen(nodes: seq<MapNode>, i: nat)
    requires i < |nodes|
    ensures nodes[i].param0 in FirstSeen(nodes) && |FirstSeen(nodes)| <= |nodes|
  {
    FirstSeenOnce(nodes);
    assert nodes[i] in nodes;
  }

  /**
    Storing and loading succeeds exactly if every name can be resolved, and
    gives every node the id its name has then; `seen` are the contents in use.
   */
  lemma DiskRoundTrip(nodes: seq<MapNode>, seen: seq<u16>, nameOf: u16 -> string, ids: map<string, u16>,
                      allocate: string -> u16,
                      nimap: NameIdMapping, stored: seq<MapNode>, back: seq<MapNode>)
    requires |seen| < 0xFFFF && forall i :: 0 <= i < |nodes| ==> nodes[i].param0 in seen
    requires nimap == NamesOf(seen, nameOf) && stored == Renumbered(nodes, seen)
    requires back == Resolved(stored, nimap, ids, allocate)
    ensures AllResolvable(stored, nimap, ids, allocate) <==> forall i :: 0 <= i < |nodes| ==>
            Loadable(nodes[i], nameOf, ids, allocate)
    ensures forall i :: 0 <= i < |nodes| ==> back[i] == Renamed(nodes[i], nameOf, ids, allocate)
  {
    forall i | 0 <= i < |nodes|
      ensures back[i] == Renamed(nodes[i], nameOf, ids, allocate)
      ensures Resolvable(nimap, ids, allocate, stored[i].param0) <==> Loadable(nodes[i], nameOf, ids, allocate)
    {
      NodeRoundTrip(seen, nodes[i], nameOf, ids, allocate);
    }
  }

  lemma FirstSeenShort(nodes: seq<MapNode>)
    ensures |FirstSeen(nodes)| <= |nodes|
    ensures forall i :: 0 <= i < |nodes| ==> nodes[i].param0 in FirstSeen(nodes)
  {
    FirstSeenOnce(nodes);
    forall i | 0 <= i < |nodes|
      ensures nodes[i].param0 in FirstSeen(nodes)
    {
      IsSeen(nodes, i);
    }
  }
}

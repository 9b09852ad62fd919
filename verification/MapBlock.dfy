/** The nodes of a map block: one array, or a single node standing for all; and how they are stored. */
module MapBlocks {
  import opened Numbers
  import opened NodeBulk
  import opened NodeIds

  const BLOCKSIZE := 16
  const NODECOUNT := 4096

  predicate ValidPosition(x: int, y: int, z: int) {
    0 <= x < BLOCKSIZE && 0 <= y < BLOCKSIZE && 0 <= z < BLOCKSIZE
  }

  function Index(x: nat, y: nat, z: nat): (i: nat)
    requires ValidPosition(x, y, z)
    ensures i < NODECOUNT
  {
    z * 256 + y * 16 + x
  }

  lemma IndexIsInjective(x: nat, y: nat, z: nat, x': nat, y': nat, z': nat)
    requires ValidPosition(x, y, z) && ValidPosition(x', y', z') && Index(x, y, z) == Index(x', y', z')
    ensures x == x' && y == y' && z == z'
  {
  }

  /** Nodes are stored in lines along x, which make up planes along y, which make up the block along z. */
  lemma IndexOrder(x: nat, y: nat, z: nat)
    requires ValidPosition(x, y, z)
    ensures Index(x, y, z) == (z * BLOCKSIZE + y) * BLOCKSIZE + x
  {
  }

  /** Air has the reserved id 126. */
  ghost predicate AllAir(nodes: seq<MapNode>) {
    forall i :: 0 <= i < |nodes| ==> nodes[i].param0 == 126
  }

  ghost predicate AllEqual(nodes: seq<MapNode>) {
    forall i :: 0 <= i < |nodes| ==> nodes[i] == nodes[0]
  }

  // ---------------------------------------------------------------------------
  // The name list of a stored block
  // ---------------------------------------------------------------------------

  /** The two maps built from the stored pairs; a repeated id keeps its last name, but all its names keep the id. */
  function ReadNames(entries: seq<(u16, string)>): (NameIdMapping, map<string, u16>) {
    if entries == [] then (map[], map[])
    else
      var (idToName, nameToId) := ReadNames(entries[..|entries| - 1]);
      var (id, name) := entries[|entries| - 1];
      (idToName[id := name], nameToId[name := id])
  }

  ghost predicate NoRepeatedIds(entries: seq<(u16, string)>) {
    forall i, j :: 0 <= i < j < |entries| ==> entries[i].0 != entries[j].0
  }

  /** The pairs are those of the mapping, in any order. */
  ghost predicate Lists(entries: seq<(u16, string)>, nimap: NameIdMapping) {
    && NoRepeatedIds(entries)
    && (forall i :: 0 <= i < |entries| ==> entries[i].0 in nimap && nimap[entries[i].0] == entries[i].1)
    && (forall id :: id in nimap ==> (id, nimap[id]) in entries)
  }

  lemma {:induction false} ReadNamesOnce(entries: seq<(u16, string)>)
    requires NoRepeatedIds(entries)
    ensures forall i :: 0 <= i < |entries| ==>
              entries[i].0 in ReadNames(entries).0 && ReadNames(entries).0[entries[i].0] == entries[i].1
    ensures forall id :: id in ReadNames(entries).0 ==> (id, ReadNames(entries).0[id]) in entries
    ensures forall name :: name in ReadNames(entries).1 ==> exists id :: (id, name) in entries
  {
    if entries != [] {
      var rest, last := entries[..|entries| - 1], entries[|entries| - 1];
      assert entries == rest + [last];
      ReadNamesOnce(rest);
      forall name | name in ReadNames(entries).1
        ensures exists id :: (id, name) in entries
      {
        if name == last.1 {
          assert (last.0, name) in entries;
        } else {
          var id :| (id, name) in rest;
          assert (id, name) in entries;
        }
      }
    }
  }

  lemma ListsReadBack(entries: seq<(u16, string)>, nimap: NameIdMapping)
    requires Lists(entries, nimap)
    ensures ReadNames(entries).0 == nimap
  {
    ReadNamesOnce(entries);
    var read := ReadNames(entries).0;
    forall id | id in nimap
      ensures id in read && read[id] == nimap[id]
    {
      var i :| 0 <= i < |entries| && entries[i] == (id, nimap[id]);
    }
    forall id | id in read
      ensures id in nimap
    {
      var i :| 0 <= i < |entries| && entries[i] == (id, read[id]);
    }
  }

  /** A block is stored and loaded as if it were not compressed to one node. */
  lemma StoringCommutes(data: seq<MapNode>, isMonoBlock: bool, seen: seq<u16>)
    requires |data| == if isMonoBlock then 1 else NODECOUNT
    ensures Stored(Renumbered(data, seen), isMonoBlock, NODECOUNT) == Renumbered(Stored(data, isMonoBlock, NODECOUNT),
        seen)
  {
  }

  /**
    Disk storage loses nothing: whatever ids the names have at the time of
    loading, each node comes back as itself under the id of its name; loading
    fails only if some name is unknown and cannot be given an id.
   */
  lemma BlockSurvivesDisk(data: seq<MapNode>, isMonoBlock: bool, nameOf: u16 -> string, ids: map<string, u16>,
                          allocate: string -> u16,
                          entries: seq<(u16, string)>, bytes: seq<u8>)
    requires |data| == if isMonoBlock then 1 else NODECOUNT
    requires Lists(entries, NamesOf(FirstSeen(data), nameOf))
    requires bytes == EncodeBulk(Stored(Renumbered(data, FirstSeen(data)), isMonoBlock, NODECOUNT))
    ensures var nodes := Stored(data, isMonoBlock, NODECOUNT);
            var nimap, loaded := ReadNames(entries).0, DecodeBulk(bytes, NODECOUNT);
            && (AllResolvable(loaded, nimap, ids, allocate) <==> forall i :: 0 <= i < NODECOUNT ==>
                Loadable(nodes[i], nameOf, ids, allocate))
            && (forall i :: 0 <= i < NODECOUNT ==>
                Resolved(loaded, nimap, ids, allocate)[i] == Renamed(nodes[i], nameOf, ids, allocate))
  {
    var seen := FirstSeen(data);
    var nodes := Stored(data, isMonoBlock, NODECOUNT);
    var nimap, loaded := ReadNames(entries).0, DecodeBulk(bytes, NODECOUNT);
    FirstSeenShort(data);
    ListsReadBack(entries, NamesOf(seen, nameOf));
    StoringCommutes(data, isMonoBlock, seen);
    BulkRoundTrip(Renumbered(nodes, seen));
    DiskRoundTrip(nodes, seen, nameOf, ids, allocate, nimap, loaded, Resolved(loaded, nimap, ids, allocate));
  }

  /** Where the ids of the names in use have not changed, every node comes back as it was. */
  lemma SameIdsSameBlock(data: seq<MapNode>, isMonoBlock: bool, nameOf: u16 -> string, ids: map<string, u16>,
                         allocate: string -> u16, entries: seq<(u16, string)>, bytes: seq<u8>)
    requires |data| == if isMonoBlock then 1 else NODECOUNT
    requires Lists(entries, NamesOf(FirstSeen(data), nameOf))
    requires bytes == EncodeBulk(Stored(Renumbered(data, FirstSeen(data)), isMonoBlock, NODECOUNT))
    requires forall n :: n in data ==> nameOf(n.param0) in ids && ids[nameOf(n.param0)] == n.param0
    ensures AllResolvable(DecodeBulk(bytes, NODECOUNT), ReadNames(entries).0, ids, allocate)
    ensures Resolved(DecodeBulk(bytes, NODECOUNT), ReadNames(entries).0, ids, allocate) ==
            Stored(data, isMonoBlock, NODECOUNT)
  {
    BlockSurvivesDisk(data, isMonoBlock, nameOf, ids, allocate, entries, bytes);
    var nodes := Stored(data, isMonoBlock, NODECOUNT);
    forall i | 0 <= i < NODECOUNT
      ensures Loadable(nodes[i], nameOf, ids, allocate) && Renamed(nodes[i], nameOf, ids, allocate) == nodes[i]
    {
      assert nodes[i] in data;
    }
  }

  /** The name kept for the last listed id. */
  function LastName(entries: seq<(u16, string)>): string
    requires entries != []
  {
    entries[|entries| - 1].1
  }

  /** If only one id was listed, however often, the block is air exactly if the last name given to it is that of air. */
  lemma SingleIdDecides(entries: seq<(u16, string)>, nodes: seq<MapNode>, ids: map<string, u16>,
                        allocate: string -> u16)
    requires entries != [] && |ReadNames(entries).0| == 1 && nodes != []
    requires AllResolvable(nodes, ReadNames(entries).0, ids, allocate)
    ensures AllAir(Resolved(nodes, ReadNames(entries).0, ids, allocate)) <==>
            IdFor(ids, allocate, LastName(entries)) == CONTENT_AIR
  {
    var nimap, last := ReadNames(entries).0, entries[|entries| - 1].0;
    assert last in nimap && nimap[last] == LastName(entries);
    forall i | 0 <= i < |nodes|
      ensures Resolved(nodes, nimap, ids, allocate)[i].param0 == IdFor(ids, allocate, LastName(entries))
    {
      assert Resolvable(nimap, ids, allocate, nodes[i].param0);
      SingleKey(nimap, nodes[i].param0, last);
    }
    assert Resolved(nodes, nimap, ids, allocate)[0].param0 == IdFor(ids, allocate, LastName(entries));
  }

  /** If the block is to count as air, the only id it lists was last given the name of air. */
  ghost predicate AirNameLast(entries: seq<(u16, string)>, ids: map<string, u16>, allocate: string -> u16) {
    entries != [] && |ReadNames(entries).0| == 1 && "air" in ReadNames(entries).1 ==>
      IdFor(ids, allocate, LastName(entries)) == CONTENT_AIR
  }

  lemma DistinctIdsSuffice(entries: seq<(u16, string)>, ids: map<string, u16>, allocate: string -> u16)
    requires NoRepeatedIds(entries) && "air" in ids && ids["air"] == CONTENT_AIR
    ensures AirNameLast(entries, ids, allocate)
  {
    var (nimap, names) := ReadNames(entries);
    if entries != [] && |nimap| == 1 && "air" in names {
      ReadNamesOnce(entries);
      var id :| (id, "air") in entries;
      var last := entries[|entries| - 1];
      assert last in entries;
      SingleKey(nimap, id, last.0);
    }
  }

  lemma SingleKey(m: NameIdMapping, a: u16, b: u16)
    requires |m| == 1 && a in m && b in m
    ensures a == b
  {
    if a != b {
      assert {a, b} <= m.Keys;
      SubsetSize({a, b}, m.Keys);
    }
  }

  lemma {:induction false} SubsetSize(a: set<u16>, b: set<u16>)
    requires a <= b
    ensures |a| <= |b|
  {
    if a != {} {
      var x :| x in a;
      SubsetSize(a - {x}, b - {x});
    }
  }

  /** If an id is listed twice, the block can count as air although its nodes are not. */
  lemma RepeatedIdFakesAir(n: MapNode, ids: map<string, u16>, allocate: string -> u16)
    requires "stone" in ids && ids["stone"] != CONTENT_AIR && n.param0 == 0
    ensures var (idToName, nameToId) := ReadNames([(0, "air"), (0, "stone")]);
            && |idToName| == 1 && "air" in nameToId
            && AllResolvable([n], idToName, ids, allocate)
            && !AllAir(Resolved([n], idToName, ids, allocate))
  {
    var entries: seq<(u16, string)> := [(0, "air"), (0, "stone")];
    assert entries[..1] == [(0, "air")] && [(0 as u16, "air")][..0] == [];
    var none: NameIdMapping := map[];
    assert ReadNames([(0, "air")]) == (none[0 := "air"], map["air" := 0]);
    var (idToName, nameToId) := ReadNames(entries);
    assert idToName == none[0 := "air"][0 := "stone"] == map[0 := "stone"];
    assert idToName.Keys == {0};
    assert Resolved([n], idToName, ids, allocate)[0].param0 == ids["stone"];
  }

  // ---------------------------------------------------------------------------
  // The block
  // ---------------------------------------------------------------------------

  class MapBlock {
    var data: array<MapNode>
    var isMonoBlock: bool
    var isAir: bool
    var isAirExpired: bool
    const isClient: bool

    ghost predicate Valid()
      reads this, data
    {
      data.Length == (if isMonoBlock then 1 else NODECOUNT) && (isClient ==> !isMonoBlock)
    }

    /** The nodes of the block, however they are stored. */
    ghost function Nodes(): (nodes: seq<MapNode>)
      reads this, data
      requires Valid()
      ensures |nodes| == NODECOUNT
    {
      Stored(data[..], isMonoBlock, NODECOUNT)
    }

    /** The flag is only set, and believed, when there is nothing but air. */
    ghost predicate AirFlagHonest()
      reads this, data
      requires Valid()
    {
      isAir && !isAirExpired ==> AllAir(Nodes())
    }

    constructor (isClient: bool)
      ensures Valid() && !isMonoBlock && this.isClient == isClient && AirFlagHonest()
      ensures Nodes() == Repeat(MapNode(CONTENT_IGNORE, 0, 0), NODECOUNT)
    {
      this.isClient := isClient;
      isMonoBlock, isAir, isAirExpired := false, false, true;
      data := new MapNode[NODECOUNT](_ => MapNode(CONTENT_IGNORE, 0, 0));
    }

    method Reallocate(count: nat, n: MapNode)
      requires (count == 1 || count == NODECOUNT) && (isClient ==> count == NODECOUNT)
      modifies `data, `isMonoBlock
      ensures Valid() && fresh(data) && isMonoBlock == (count == 1) && Nodes() == Repeat(n, NODECOUNT)
    {
      data := new MapNode[count](_ => n);
      isMonoBlock := count == 1;
    }

    /** Storing a uniform block as one node changes no node; on a client nothing happens. */
    method TryShrinkNodes()
      requires Valid()
      modifies this
      ensures Valid() && Nodes() == old(Nodes()) && (data == old(data) || fresh(data))
      ensures isMonoBlock == (old(isMonoBlock) || (!isClient && AllEqual(Nodes())))
      ensures isMonoBlock == old(isMonoBlock) ==> (isAir, isAirExpired) == old((isAir, isAirExpired))
      ensures isMonoBlock != old(isMonoBlock) ==> isAir == AllAir(Nodes()) && !isAirExpired
    {
      if isClient {
        return;
      }
      if isMonoBlock {
        return;
      }
      var n := data[0];
      var mono := true;
      for i := 1 to NODECOUNT
        invariant mono && forall j :: 0 <= j < i ==> data[j] == n
      {
        if n != data[i] {
          mono := false;
          break;
        }
      }
      assert mono <==> AllEqual(data[..]);
      if mono {
        ghost var before := Nodes();
        Reallocate(1, n);
        isAir := n.param0 == CONTENT_AIR;
        isAirExpired := false;
        assert Nodes() == before;
        assert before[0] == n;
      }
    }

    method ExpandNodesIfNeeded()
      requires Valid()
      modifies `data, `isMonoBlock
      ensures Valid() && !isMonoBlock && Nodes() == old(Nodes()) && (data == old(data) || fresh(data))
    {
      if isMonoBlock {
        Reallocate(NODECOUNT, data[0]);
      }
    }

    method GetNode(x: int, y: int, z: int) returns (n: MapNode, validPosition: bool)
      requires Valid()
      ensures validPosition == ValidPosition(x, y, z)
      ensures n == if validPosition then Nodes()[Index(x, y, z)] else MapNode(CONTENT_IGNORE, 0, 0)
    {
      validPosition := ValidPosition(x, y, z);
      if !validPosition {
        return MapNode(CONTENT_IGNORE, 0, 0), false;
      }
      n := data[if isMonoBlock then 0 else z * 256 + y * 16 + x];
    }

    /** The flag about air is left alone; a caller that may make it wrong has to expire it. */
    method SetNode(x: int, y: int, z: int, n: MapNode) returns (ok: bool)
      requires Valid()
      modifies this, data
      ensures Valid() && ok == ValidPosition(x, y, z)
      ensures Nodes() == if ok then old(Nodes())[Index(x, y, z) := n] else old(Nodes())
      ensures isAir == old(isAir) && isAirExpired == old(isAirExpired)
      ensures data == old(data) || fresh(data)
    {
      if !ValidPosition(x, y, z) {
        return false;
      }
      ExpandNodesIfNeeded();
      data[z * 256 + y * 16 + x] := n;
      ok := true;
    }

    method ActuallyUpdateIsAir()
      requires Valid()
      modifies `isAir, `isAirExpired
      ensures Valid() && Nodes() == old(Nodes()) && !isAirExpired && isAir == AllAir(Nodes())
    {
      isAirExpired := false;
      if isMonoBlock {
        isAir := data[0].param0 == CONTENT_AIR;
        assert Nodes()[0] == data[0];
        return;
      }
      var onlyAir := true;
      for i := 0 to NODECOUNT
        invariant onlyAir && forall j :: 0 <= j < i ==> data[j].param0 == CONTENT_AIR
      {
        if data[i].param0 != CONTENT_AIR {
          onlyAir := false;
          break;
        }
      }
      isAir := onlyAir;
    }

    method ExpireIsAirCache()
      modifies `isAirExpired
      ensures isAirExpired
    {
      isAirExpired := true;
    }

    method IsAir() returns (r: bool)
      requires Valid() && AirFlagHonest()
      modifies `isAir, `isAirExpired
      ensures Valid() && Nodes() == old(Nodes()) && AirFlagHonest() && (r ==> AllAir(Nodes()))
      ensures old(isAirExpired) ==> (r <==> AllAir(Nodes()))
    {
      if isAirExpired {
        ActuallyUpdateIsAir();
      }
      return isAir;
    }

    /** The node part of a block on disk: names of the local ids, and the nodes. */
    method SerializeNodes(nameOf: u16 -> string) returns (nimap: NameIdMapping, buf: array<u8>)
      requires Valid()
      ensures nimap == NamesOf(FirstSeen(data[..]), nameOf)
      ensures buf[..] == EncodeBulk(Stored(Renumbered(data[..], FirstSeen(data[..])), isMonoBlock, NODECOUNT))
    {
      var size := if isMonoBlock then 1 else NODECOUNT;
      var tmpNodes := new MapNode[size](i requires 0 <= i < size reads this,
                                        data requires data.Length == size => data[i]);
      assert tmpNodes[..] == data[..];
      nimap := GetBlockNodeIdMapping(tmpNodes, nameOf);
      buf := SerializeBulk(tmpNodes, NODECOUNT, isMonoBlock);
    }

    /** Reads the nodes and gives them the ids of their names; an id without a usable name is an error. */
    method ReadNodes(nimap: NameIdMapping, buf: array<u8>, ids: map<string, u16>, allocate: string -> u16)
      returns (ok: bool, ids': map<string, u16>)
      requires Valid() && buf.Length == 4 * NODECOUNT && buf as object != data
      modifies `data, `isMonoBlock, data
      ensures Valid() && !isMonoBlock && SameIds(ids', ids, allocate)
      ensures ok == AllResolvable(DecodeBulk(old(buf[..]), NODECOUNT), nimap, ids, allocate)
      ensures ok ==> Nodes() == Resolved(DecodeBulk(old(buf[..]), NODECOUNT), nimap, ids, allocate)
    {
      ExpandNodesIfNeeded();
      DeSerializeBulk(buf, data);
      ok, ids' := CorrectBlockNodeIds(nimap, data, ids, allocate);
    }

    /**
      Loads the node part from disk. The air flag it sets is right exactly if
      the only listed id, should one of its names be that of air, was last
      given a name of air.
     */
    method DeSerializeNodes(entries: seq<(u16, string)>, buf: array<u8>, ids: map<string, u16>, allocate: string -> u16)
      returns (ok: bool, ids': map<string, u16>)
      requires Valid() && buf.Length == 4 * NODECOUNT && buf as object != data
      modifies this, data
      ensures Valid() && SameIds(ids', ids, allocate)
      ensures var nimap, loaded := ReadNames(entries).0, DecodeBulk(old(buf[..]), NODECOUNT);
              && ok == AllResolvable(loaded, nimap, ids, allocate)
              && (ok ==> Nodes() == Resolved(loaded, nimap, ids, allocate))
      ensures ok ==> (AirFlagHonest() <==> AirNameLast(entries, ids, allocate))
    {
      isAirExpired := true;
      var (idToName, nameToId) := ReadNames(entries);
      ok, ids' := ReadNodes(idToName, buf, ids, allocate);
      if ok && |idToName| == 1 {
        TryShrinkNodes();
        isAir := "air" in nameToId;
        isAirExpired := false;
        SingleIdDecides(entries, DecodeBulk(old(buf[..]), NODECOUNT), ids, allocate);
      }
    }
  }
}

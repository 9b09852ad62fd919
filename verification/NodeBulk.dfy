/** Map nodes and their bulk encoding: all contents, then all first parameters, then all second ones. */
module NodeBulk {
  import opened Numbers

  const CONTENT_AIR: u16 := 126
  const CONTENT_IGNORE: u16 := 127

  datatype MapNode = MapNode(param0: u16, param1: u8, param2: u8) {
    function SetContent(c: u16): MapNode {
      this.(param0 := c)
    }
  }

  /** The byte at offset `k` of the encoding. */
  function ByteAt(nodes: seq<MapNode>, k: nat): u8
    requires k < 4 * |nodes|
  {
    var n := |nodes|;
    if k < 2 * n then
      if k % 2 == 0 then nodes[k / 2].param0 / 256 else nodes[k / 2].param0 % 256
    else if k < 3 * n then nodes[k - 2 * n].param1
    else nodes[k - 3 * n].param2
  }

  function EncodeBulk(nodes: seq<MapNode>): (bytes: seq<u8>)
    ensures |bytes| == 4 * |nodes|
    ensures forall k :: 0 <= k < |bytes| ==> bytes[k] == ByteAt(nodes, k)
  {
    seq(4 * |nodes|, k requires 0 <= k < 4 * |nodes| => ByteAt(nodes, k))
  }

  function ReadU16(hi: u8, lo: u8): u16 {
    hi as int * 256 + lo
  }

  function ContentAt(bytes: seq<u8>, i: nat): u16
    requires 2 * i + 1 < |bytes|
  {
    ReadU16(bytes[2 * i], bytes[2 * i + 1])
  }

  function DecodeNode(bytes: seq<u8>, n: nat, i: nat): MapNode
    requires |bytes| == 4 * n && i < n
  {
    MapNode(ContentAt(bytes, i), bytes[2 * n + i], bytes[3 * n + i])
  }

  function DecodeBulk(bytes: seq<u8>, n: nat): (nodes: seq<MapNode>)
    requires |bytes| == 4 * n
    ensures |nodes| == n && forall i :: 0 <= i < n ==> nodes[i] == DecodeNode(bytes, n, i)
  {
    seq(n, i requires 0 <= i < n => DecodeNode(bytes, n, i))
  }

  /** The layout on disk: contents of two bytes, the higher first, then the two parameters, each in its own run. */
  lemma BulkLayout(nodes: seq<MapNode>, i: nat)
    requires i < |nodes|
    ensures var bytes, n := EncodeBulk(nodes), |nodes|;
            && |bytes| == 2 * n + n + n
            && nodes[i].param0 == bytes[i + i] as int * 256 + bytes[i + i + 1]
            && nodes[i].param1 == bytes[n + n + i] && nodes[i].param2 == bytes[n + n + n + i]
  {
    assert ByteAt(nodes, 2 * i) == nodes[i].param0 / 256;
    assert ByteAt(nodes, 2 * i + 1) == nodes[i].param0 % 256;
  }

  lemma BulkRoundTrip(nodes: seq<MapNode>)
    ensures DecodeBulk(EncodeBulk(nodes), |nodes|) == nodes
  {
    var n := |nodes|;
    forall i | 0 <= i < n
      ensures DecodeNode(EncodeBulk(nodes), n, i) == nodes[i]
    {
      assert ByteAt(nodes, 2 * i) == nodes[i].param0 / 256;
      assert ByteAt(nodes, 2 * i + 1) == nodes[i].param0 % 256;
      assert ByteAt(nodes, 2 * n + i) == nodes[i].param1;
      assert ByteAt(nodes, 3 * n + i) == nodes[i].param2;
    }
  }

  function Repeat(n: MapNode, count: nat): (nodes: seq<MapNode>)
    ensures |nodes| == count && forall i :: 0 <= i < count ==> nodes[i] == n
  {
    seq(count, _ => n)
  }

  /** What a block of `count` nodes holds: its array, or its only node everywhere. */
  function Stored(data: seq<MapNode>, isMonoBlock: bool, count: nat): seq<MapNode>
    requires |data| == if isMonoBlock then 1 else count
  {
    if isMonoBlock then Repeat(data[0], count) else data
  }

  method SerializeBulk(nodes: array<MapNode>, nodecount: nat, isMonoBlock: bool) returns (databuf: array<u8>)
    requires nodes.Length == if isMonoBlock then 1 else nodecount
    ensures fresh(databuf)
    ensures databuf[..] == EncodeBulk(Stored(nodes[..], isMonoBlock, nodecount))
  {
    databuf := new u8[nodecount * 4];
    ghost var all := Stored(nodes[..], isMonoBlock, nodecount);
    var p := 0;
    for i := 0 to nodecount
      invariant p == 2 * i
      invariant forall k :: 0 <= k < p ==> databuf[k] == ByteAt(all, k)
    {
      var n := nodes[if isMonoBlock then 0 else i];
      assert n == all[i];
      databuf[p], databuf[p + 1] := n.param0 / 256, n.param0 % 256;
      p := p + 2;
    }
    for i := 0 to nodecount
      invariant p == 2 * nodecount + i
      invariant forall k :: 0 <= k < p ==> databuf[k] == ByteAt(all, k)
    {
      databuf[p] := nodes[if isMonoBlock then 0 else i].param1;
      p := p + 1;
    }
    for i := 0 to nodecount
      invariant p == 3 * nodecount + i
      invariant forall k :: 0 <= k < p ==> databuf[k] == ByteAt(all, k)
    {
      databuf[p] := nodes[if isMonoBlock then 0 else i].param2;
      p := p + 1;
    }
    assert databuf[..] == EncodeBulk(all);
  }

  method DeSerializeContents(databuf: array<u8>, nodes: array<MapNode>)
    requires databuf.Length == 4 * nodes.Length && databuf as object != nodes
    modifies nodes
    ensures forall j :: 0 <= j < nodes.Length ==> nodes[j].param0 == ContentAt(databuf[..], j)
  {
    ghost var bytes := databuf[..];
    for i := 0 to nodes.Length
      invariant databuf[..] == bytes
      invariant forall j :: 0 <= j < i ==> nodes[j].param0 == ContentAt(bytes, j)
    {
      nodes[i] := nodes[i].(param0 := ReadU16(databuf[i * 2], databuf[i * 2 + 1]));
      assert nodes[i].param0 == ContentAt(bytes, i);
    }
  }

  method DeSerializeParam1(databuf: array<u8>, nodes: array<MapNode>, start1: nat)
    requires start1 + nodes.Length <= databuf.Length && databuf as object != nodes
    modifies nodes
    ensures forall j :: 0 <= j < nodes.Length ==> nodes[j] == old(nodes[j]).(param1 := databuf[start1 + j])
  {
    ghost var before, bytes := nodes[..], databuf[..];
    for i := 0 to nodes.Length
      invariant databuf[..] == bytes
      invariant forall j :: 0 <= j < nodes.Length ==> nodes[j] == if j < i then before[j].(param1 := bytes[start1 + j])
                else before[j]
    {
      nodes[i] := nodes[i].(param1 := databuf[start1 + i]);
    }
  }

  method DeSerializeParam2(databuf: array<u8>, nodes: array<MapNode>, start2: nat)
    requires start2 + nodes.Length <= databuf.Length && databuf as object != nodes
    modifies nodes
    ensures forall j :: 0 <= j < nodes.Length ==> nodes[j] == old(nodes[j]).(param2 := databuf[start2 + j])
  {
    ghost var before, bytes := nodes[..], databuf[..];
    for i := 0 to nodes.Length
      invariant databuf[..] == bytes
      invariant forall j :: 0 <= j < nodes.Length ==> nodes[j] == if j < i then before[j].(param2 := bytes[start2 + j])
                else before[j]
    {
      nodes[i] := nodes[i].(param2 := databuf[start2 + i]);
    }
  }

  method DeSerializeBulk(databuf: array<u8>, nodes: array<MapNode>)
    requires databuf.Length == 4 * nodes.Length && databuf as object != nodes
    modifies nodes
    ensures nodes[..] == DecodeBulk(databuf[..], nodes.Length)
  {
    DeSerializeContents(databuf, nodes);
    DeSerializeParam1(databuf, nodes, 2 * nodes.Length);
    DeSerializeParam2(databuf, nodes, 3 * nodes.Length);
  }
}

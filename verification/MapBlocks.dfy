// Storing the nodes of a map block (src/mapblock.cpp:32-73, 243-284, 321-386; src/mapnode.cpp:577-664).

module NodeIds {
  import opened Numbers

  datatype MapNode = MapNode(param0: u16, param1: u8, param2: u8)

  const NODECOUNT := 4096
  const CONTENT_IGNORE: u16 := 127

  // ---- numbering contents in the order of their first appearance

  function Distinct(nodes: seq<MapNode>): (d: seq<u16>)
    ensures |d| <= |nodes|
    decreases |nodes|
  {
    if nodes == [] then []
    else
      var d, c := Distinct(nodes[..|nodes| - 1]), nodes[|nodes| - 1].param0;
      if c in d then d else d + [c]
  }

  predicate NoDuplicates(d: seq<u16>) {
    forall i, j :: 0 <= i < j < |d| ==> d[i] != d[j]
  }

  lemma {:induction false} DistinctHasAll(nodes: seq<MapNode>)
    ensures NoDuplicates(Distinct(nodes))
    ensures forall i :: 0 <= i < |nodes| ==> nodes[i].param0 in Distinct(nodes)
    ensures forall c :: c in Distinct(nodes) ==> exists i :: 0 <= i < |nodes| && nodes[i].param0 == c
    decreases |nodes|
  {
    if nodes != [] {
      var before := nodes[..|nodes| - 1];
      DistinctHasAll(before);
      forall i | 0 <= i < |nodes|
        ensures nodes[i].param0 in Distinct(nodes)
      {
        if i < |before| {
          assert before[i].param0 in Distinct(before);
        }
      }
      forall c | c in Distinct(nodes)
        ensures exists i :: 0 <= i < |nodes| && nodes[i].param0 == c
      {
        if c in Distinct(before) {
          var i :| 0 <= i < |before| && before[i].param0 == c;
          assert nodes[i].param0 == c;
        } else {
          assert nodes[|nodes| - 1].param0 == c;
        }
      }
    }
  }

  function IndexOf(d: seq<u16>, c: u16): (k: nat)
    requires c in d
    ensures k < |d| && d[k] == c
  {
    if d[0] == c then 0 else 1 + IndexOf(d[1..], c)
  }

  lemma {:induction false} IndexOfPrefix(d: seq<u16>, e: seq<u16>, c: u16)
    requires c in d
    ensures c in d + e && IndexOf(d + e, c) == IndexOf(d, c)
  {
    assert (d + e)[0] == d[0];
    if d[0] != c {
      assert (d + e)[1..] == d[1..] + e;
      IndexOfPrefix(d[1..], e, c);
    }
  }

  lemma {:induction false} IndexOfNew(d: seq<u16>, c: u16)
    requires c !in d
    ensures c in d + [c] && IndexOf(d + [c], c) == |d|
  {
    assert (d + [c])[|d|] == c;
    if d != [] {
      assert (d + [c])[1..] == d[1..] + [c];
      IndexOfNew(d[1..], c);
    }
  }

  // ---- the specification of the codec

  // The nodes with their contents numbered by d.
  function Renumbered(nodes: seq<MapNode>, d: seq<u16>): (r: seq<MapNode>)
    requires |d| < 0xFFFF && forall i :: 0 <= i < |nodes| ==> nodes[i].param0 in d
    ensures |r| == |nodes|
  {
    seq(|nodes|, i requires 0 <= i < |nodes| => nodes[i].(param0 := IndexOf(d, nodes[i].param0)))
  }

  // The names of the numbered contents.
  function NamesOf(d: seq<u16>, names: u16 -> string): map<u16, string>
    requires |d| < 0xFFFF
  {
    map id: u16 | id < |d| :: names(d[id])
  }

  // Byte j of the planes of count nodes: contents, high byte first, then the two parameters.
  function PlaneByte(nodes: seq<MapNode>, j: nat): u8
    requires j < 4 * |nodes|
  {
    var n := |nodes|;
    if j < 2 * n then if j % 2 == 0 then nodes[j / 2].param0 / 0x100 else nodes[j / 2].param0 % 0x100
    else if j < 3 * n then nodes[j - 2 * n].param1
    else nodes[j - 3 * n].param2
  }

  function Planes(nodes: seq<MapNode>): seq<u8> {
    seq(4 * |nodes|, j requires 0 <= j < 4 * |nodes| => PlaneByte(nodes, j))
  }

  // The node read from planes of contents of the given width. Narrow contents above 0x7F take four
  // more bits from the second parameter.
  function NodeAt(bytes: seq<u8>, n: nat, width: nat, i: nat): MapNode
    requires i < n && (width == 1 || width == 2) && |bytes| == n * (width + 2)
  {
    if width == 2 then
      var high: int, low: int := bytes[2 * i], bytes[2 * i + 1];
      MapNode(high * 0x100 + low, bytes[2 * n + i], bytes[3 * n + i])
    else
      var content: int, param2: int := bytes[i], bytes[2 * n + i];
      if content > 0x7F then MapNode(content * 0x10 + param2 / 0x10, bytes[n + i], param2 % 0x10)
      else MapNode(content, bytes[n + i], param2)
  }

  // All the nodes that the planes hold.
  function NodesRead(bytes: seq<u8>, n: nat, width: nat): (r: seq<MapNode>)
    requires (width == 1 || width == 2) && |bytes| == n * (width + 2)
    ensures |r| == n
  {
    seq(n, i requires 0 <= i < n => NodeAt(bytes, n, width, i))
  }

  function Repeat(node: MapNode, n: nat): (r: seq<MapNode>)
    ensures |r| == n && forall i :: 0 <= i < n ==> r[i] == node
  {
    seq(n, i => node)
  }

  // ---- there and back

  lemma PlanesRead(nodes: seq<MapNode>, i: nat)
    requires i < |nodes|
    ensures NodeAt(Planes(nodes), |nodes|, 2, i) == nodes[i]
  {
    var n, b := |nodes|, Planes(nodes);
    assert b[2 * i] == PlaneByte(nodes, 2 * i) && b[2 * i + 1] == PlaneByte(nodes, 2 * i + 1);
    assert b[2 * n + i] == PlaneByte(nodes, 2 * n + i) && b[3 * n + i] == PlaneByte(nodes, 3 * n + i);
  }

  // Where the planes are and what is in them.
  lemma PlanesHold(nodes: seq<MapNode>, i: nat)
    requires i < |nodes|
    ensures var b, n := Planes(nodes), |nodes|;
      && |b| == 4 * n
      && nodes[i].param0 - b[2 * i + 1] == 256 * (b[2 * i] as int)
      && b[2 * n + i] == nodes[i].param1 && b[3 * n + i] == nodes[i].param2
  {
    PlanesRead(nodes, i);
  }

  // Contents of one byte: up to 0x7F as they are, and above that with their last four bits before
  // those of the second parameter, so that 0x800 to 0xFFF can be told.
  lemma NarrowRead(bytes: seq<u8>, n: nat, i: nat, node: MapNode)
    requires i < n && |bytes| == n * 3 && bytes[n + i] == node.param1
    ensures node.param0 <= 0x7F && bytes[i] == node.param0 && bytes[2 * n + i] == node.param2 ==>
      NodeAt(bytes, n, 1, i) == node
    ensures var high: int, low: int := node.param0 / 16, node.param0 % 16;
      (0x800 <= node.param0 <= 0xFFF && node.param2 < 16
       && bytes[i] == high && bytes[2 * n + i] == low * 16 + node.param2) ==>
        NodeAt(bytes, n, 1, i) == node
  {
  }

  // Numbering loses nothing: the number tells the content, and its name is stored.
  lemma RenumberedNamed(nodes: seq<MapNode>, names: u16 -> string, i: nat)
    requires i < |nodes| <= NODECOUNT
    ensures var d := Distinct(nodes);
      && |d| < 0xFFFF && (forall i :: 0 <= i < |nodes| ==> nodes[i].param0 in d)
      && var id := Renumbered(nodes, d)[i].param0;
        && id < |d| && d[id] == nodes[i].param0
        && id in NamesOf(d, names) && NamesOf(d, names)[id] == names(nodes[i].param0)
        && Renumbered(nodes, d)[i] == nodes[i].(param0 := id)
  {
    DistinctHasAll(nodes);
  }
}

// The codec itself, on arrays.
module NodeCodec {
  import opened Numbers
  import opened NodeIds

  // A map from contents to contents as an array, where 0xFFFF marks what is not assigned.
  class IdIdMapping {
    const mapping: array<u16>
    var dirty: seq<u16>

    ghost predicate Valid()
      reads this, mapping
    {
      mapping.Length == 0x1_0000 && forall k :: 0 <= k < 0x1_0000 && mapping[k] != 0xFFFF ==> k in dirty
    }

    ghost predicate Cleared()
      reads mapping
    {
      mapping.Length == 0x1_0000 && forall k :: 0 <= k < 0x1_0000 ==> mapping[k] == 0xFFFF
    }

    constructor ()
      ensures Valid() && Cleared() && fresh(mapping)
    {
      mapping := new u16[0x1_0000](_ => 0xFFFF);
      dirty := [];
    }

    method Set(k: u16, v: u16)
      requires Valid()
      modifies this, mapping
      ensures Valid() && mapping[..] == old(mapping[..])[k := v]
    {
      mapping[k] := v;
      dirty := dirty + [k];
    }

    // Only what was assigned needs to be reset.
    method Clear()
      requires Valid()
      modifies this, mapping
      ensures Valid() && Cleared()
    {
      var i := 0;
      while i < |dirty|
        modifies mapping
        invariant i <= |dirty|
        invariant forall k :: 0 <= k < 0x1_0000 && mapping[k] != 0xFFFF ==> k in dirty[i..]
      {
        mapping[dirty[i]] := 0xFFFF;
        i := i + 1;
      }
      dirty := [];
    }
  }

  // Contents of the first i nodes are numbered by d, and the others are as they were.
  ghost predicate Numbering(nodes: seq<MapNode>, was: seq<MapNode>, i: nat, d: seq<u16>, mapping: seq<u16>,
                            idToName: map<u16, string>, names: u16 -> string)
  {
    && i <= |nodes| == |was| <= NODECOUNT && d == Distinct(was[..i]) && |mapping| == 0x1_0000
    && nodes[i..] == was[i..]
    && (forall j :: 0 <= j < i ==> was[j].param0 in d && nodes[j] == was[j].(param0 := IndexOf(d, was[j].param0)))
    && (forall c :: 0 <= c < 0x1_0000 ==> mapping[c] == if c in d then IndexOf(d, c) else 0xFFFF)
    && |d| < 0xFFFF && idToName == NamesOf(d, names)
  }

  lemma NumberingStarts(was: seq<MapNode>, mapping: seq<u16>, names: u16 -> string)
    requires |was| <= NODECOUNT && |mapping| == 0x1_0000 && forall k :: 0 <= k < 0x1_0000 ==> mapping[k] == 0xFFFF
    ensures Numbering(was, was, 0, [], mapping, map[], names)
  {
    assert was[..0] == [];
  }

  lemma DistinctNext(was: seq<MapNode>, i: nat)
    requires i < |was|
    ensures var d, c := Distinct(was[..i]), was[i].param0;
      Distinct(was[..i + 1]) == if c in d then d else d + [c]
  {
    assert was[..i + 1][..i] == was[..i];
  }

  // The content of node i has its number already.
  lemma NumberingFound(nodes: seq<MapNode>, was: seq<MapNode>, i: nat, d: seq<u16>, mapping: seq<u16>,
                       idToName: map<u16, string>, names: u16 -> string)
    requires Numbering(nodes, was, i, d, mapping, idToName, names) && i < |nodes|
    requires mapping[nodes[i].param0] != 0xFFFF
    ensures Numbering(nodes[i := nodes[i].(param0 := mapping[nodes[i].param0])], was, i + 1, d, mapping, idToName,
                      names)
  {
    hide Distinct, NamesOf;
    DistinctNext(was, i);
    assert nodes[i] == nodes[i..][0] == was[i..][0] == was[i];
    assert nodes[i + 1..] == nodes[i..][1..] == was[i..][1..] == was[i + 1..];
  }

  // It gets the next one.
  lemma NumberingNew(nodes: seq<MapNode>, was: seq<MapNode>, i: nat, d: seq<u16>, mapping: seq<u16>,
                     idToName: map<u16, string>, names: u16 -> string)
    requires Numbering(nodes, was, i, d, mapping, idToName, names) && i < |nodes|
    requires mapping[nodes[i].param0] == 0xFFFF
    ensures var c := nodes[i].param0;
      && |d| < NODECOUNT
      && Numbering(nodes[i := nodes[i].(param0 := |d|)], was, i + 1, d + [c], mapping[c := |d|],
                   idToName[|d| := names(c)], names)
  {
    hide Distinct, NamesOf;
    var c := nodes[i].param0;
    DistinctNext(was, i);
    assert nodes[i] == nodes[i..][0] == was[i..][0] == was[i];
    assert nodes[i + 1..] == nodes[i..][1..] == was[i..][1..] == was[i + 1..];
    IndexOfNew(d, c);
    forall e | e in d
      ensures e in d + [c] && IndexOf(d + [c], e) == IndexOf(d, e)
    {
      IndexOfPrefix(d, [c], e);
    }
    NamesNext(d, c, names);
  }

  lemma NamesNext(d: seq<u16>, c: u16, names: u16 -> string)
    requires |d| < 0xFFFE
    ensures NamesOf(d + [c], names) == NamesOf(d, names)[|d| := names(c)]
  {
  }

  // MapBlock::getBlockNodeIdMapping
  method GetBlockNodeIdMapping(nodes: array<MapNode>, mapping: IdIdMapping, names: u16 -> string)
    returns (idToName: map<u16, string>)
    requires nodes.Length <= NODECOUNT && mapping.Valid()
    modifies nodes, mapping, mapping.mapping
    ensures mapping.Valid()
    ensures var d := Distinct(old(nodes[..]));
      && |d| < 0xFFFF && idToName == NamesOf(d, names)
      && (forall i :: 0 <= i < nodes.Length ==> old(nodes[..])[i].param0 in d)
      && nodes[..] == Renumbered(old(nodes[..]), d)
  {
    hide Numbering, Distinct, NamesOf;
    mapping.Clear();
    idToName := map[];
    var idCounter: u16 := 0;
    ghost var d := [];
    ghost var was := nodes[..];
    NumberingStarts(was, mapping.mapping[..], names);
    var i := 0;
    while i < nodes.Length
      invariant i <= nodes.Length && mapping.Valid() && idCounter == |d|
      invariant Numbering(nodes[..], was, i, d, mapping.mapping[..], idToName, names)
    {
      var globalId := nodes[i].param0;
      var id;
      var found := mapping.mapping[globalId];
      if found != 0xFFFF {
        NumberingFound(nodes[..], was, i, d, mapping.mapping[..], idToName, names);
        id := found;
      } else {
        NumberingNew(nodes[..], was, i, d, mapping.mapping[..], idToName, names);
        id := idCounter;
        idCounter := idCounter + 1;
        mapping.Set(globalId, id);
        idToName := idToName[id := names(globalId)];
        d := d + [globalId];
      }
      nodes[i] := nodes[i].(param0 := id);
      i := i + 1;
    }
    NumberingEnds(nodes[..], was, d, mapping.mapping[..], idToName, names);
  }

  lemma NumberingEnds(nodes: seq<MapNode>, was: seq<MapNode>, d: seq<u16>, mapping: seq<u16>,
                      idToName: map<u16, string>, names: u16 -> string)
    requires Numbering(nodes, was, |was|, d, mapping, idToName, names)
    ensures d == Distinct(was) && |d| < 0xFFFF && idToName == NamesOf(d, names)
    ensures (forall i :: 0 <= i < |was| ==> was[i].param0 in d) && nodes == Renumbered(was, d)
  {
    assert was[..|was|] == was;
  }

  // ---- the bytes

  // MapNode::serializeBulk: the planes of the nodes, or of one node for all.
  method SerializeBulk(nodes: array<MapNode>, nodeCount: nat, isMonoBlock: bool) returns (buf: array<u8>)
    requires if isMonoBlock then nodes.Length > 0 else nodes.Length == nodeCount
    ensures fresh(buf) && buf[..] == Planes(if isMonoBlock then Repeat(nodes[0], nodeCount) else nodes[..])
  {
    buf := new u8[nodeCount * 4];
    ghost var all := if isMonoBlock then Repeat(nodes[0], nodeCount) else nodes[..];
    var i := 0;
    while i < nodeCount
      invariant i <= nodeCount
      invariant forall j :: 0 <= j < 2 * i ==> buf[j] == PlaneByte(all, j)
    {
      var n := if isMonoBlock then nodes[0] else nodes[i];
      assert n == all[i];
      buf[2 * i], buf[2 * i + 1] := n.param0 / 0x100, n.param0 % 0x100;
      i := i + 1;
    }
    i := 0;
    while i < nodeCount
      invariant i <= nodeCount
      invariant forall j :: 0 <= j < 2 * nodeCount + i ==> buf[j] == PlaneByte(all, j)
    {
      buf[2 * nodeCount + i] := (if isMonoBlock then nodes[0] else nodes[i]).param1;
      i := i + 1;
    }
    i := 0;
    while i < nodeCount
      invariant i <= nodeCount
      invariant forall j :: 0 <= j < 3 * nodeCount + i ==> buf[j] == PlaneByte(all, j)
    {
      buf[3 * nodeCount + i] := (if isMonoBlock then nodes[0] else nodes[i]).param2;
      i := i + 1;
    }
  }

  // MapNode::deSerializeBulk, on a buffer that was read.
  method DeSerializeBulk(buf: array<u8>, nodes: array<MapNode>, contentWidth: nat, paramsWidth: nat) returns (ok: bool)
    requires (contentWidth == 1 || contentWidth == 2) && paramsWidth == 2 ==>
      buf.Length == nodes.Length * (contentWidth + 2)
    modifies nodes
    ensures ok <==> (contentWidth == 1 || contentWidth == 2) && paramsWidth == 2
    ensures ok ==> forall i :: 0 <= i < nodes.Length ==> nodes[i] == NodeAt(buf[..], nodes.Length, contentWidth, i)
  {
    if (contentWidth != 1 && contentWidth != 2) || paramsWidth != 2 {
      return false;
    }
    ReadContents(buf, nodes, contentWidth);
    ReadParam1(buf, nodes, contentWidth);
    ReadParam2(buf, nodes, contentWidth);
    ok := true;
  }

  // The plane, or two, of contents.
  method ReadContents(buf: array<u8>, nodes: array<MapNode>, contentWidth: nat)
    requires (contentWidth == 1 || contentWidth == 2) && buf.Length == nodes.Length * (contentWidth + 2)
    modifies nodes
    ensures forall j :: 0 <= j < nodes.Length ==>
      nodes[j].param0 == Content(buf[..], nodes.Length, contentWidth, j)
  {
    ghost var bytes := buf[..];
    var i := 0;
    while i < nodes.Length
      invariant i <= nodes.Length
      invariant forall j :: 0 <= j < i ==> nodes[j].param0 == Content(bytes, nodes.Length, contentWidth, j)
    {
      var high: int := if contentWidth == 2 then buf[2 * i] else 0;
      var low: int := if contentWidth == 2 then buf[2 * i + 1] else buf[i];
      nodes[i] := nodes[i].(param0 := high * 0x100 + low);
      i := i + 1;
    }
  }

  // The plane after the contents.
  method ReadParam1(buf: array<u8>, nodes: array<MapNode>, contentWidth: nat)
    requires (contentWidth == 1 || contentWidth == 2) && buf.Length == nodes.Length * (contentWidth + 2)
    modifies nodes
    ensures forall j :: 0 <= j < nodes.Length ==>
      nodes[j] == old(nodes[j]).(param1 := buf[contentWidth * nodes.Length + j])
  {
    var start1 := contentWidth * nodes.Length;
    var i := 0;
    while i < nodes.Length
      invariant i <= nodes.Length
      invariant forall j :: i <= j < nodes.Length ==> nodes[j] == old(nodes[j])
      invariant forall j :: 0 <= j < i ==> nodes[j] == old(nodes[j]).(param1 := buf[start1 + j])
    {
      nodes[i] := nodes[i].(param1 := buf[start1 + i]);
      i := i + 1;
    }
  }

  // The last plane. A content of one byte that is above 0x7F has its low bits here.
  method ReadParam2(buf: array<u8>, nodes: array<MapNode>, contentWidth: nat)
    requires (contentWidth == 1 || contentWidth == 2) && buf.Length == nodes.Length * (contentWidth + 2)
    requires forall j :: 0 <= j < nodes.Length ==>
      && nodes[j].param0 == Content(buf[..], nodes.Length, contentWidth, j)
      && nodes[j].param1 == buf[contentWidth * nodes.Length + j]
    modifies nodes
    ensures forall j :: 0 <= j < nodes.Length ==> nodes[j] == NodeAt(buf[..], nodes.Length, contentWidth, j)
  {
    ghost var bytes := buf[..];
    var start2 := (contentWidth + 1) * nodes.Length;
    var i := 0;
    while i < nodes.Length
      invariant i <= nodes.Length
      invariant forall j :: i <= j < nodes.Length ==> nodes[j] == old(nodes[j])
      invariant forall j :: 0 <= j < i ==> nodes[j] == NodeAt(bytes, nodes.Length, contentWidth, j)
    {
      var node, param2: int := nodes[i], buf[start2 + i];
      if contentWidth == 1 && node.param0 > 0x7F {
        var content: int := node.param0;
        nodes[i] := MapNode(content * 0x10 + param2 / 0x10, node.param1, param2 % 0x10);
      } else {
        nodes[i] := node.(param2 := buf[start2 + i]);
      }
      i := i + 1;
    }
  }

  function Content(bytes: seq<u8>, n: nat, width: nat, i: nat): u16
    requires i < n && (width == 1 || width == 2) && |bytes| == n * (width + 2)
  {
    var high: int := if width == 2 then bytes[2 * i] else 0;
    var low: int := if width == 2 then bytes[2 * i + 1] else bytes[i];
    high * 0x100 + low
  }

  // ---- back to the contents registered here

  // The registered names, and the ids that are left for names met in a stored block.
  class GameDef {
    var ids: map<string, u16>
    var free: seq<u16>

    constructor (ids: map<string, u16>, free: seq<u16>)
      ensures this.ids == ids && this.free == free
    {
      this.ids, this.free := ids, free;
    }

    method AllocateUnknownNodeId(name: string) returns (id: u16)
      modifies this
      ensures old(free) == [] ==> id == 127 && ids == old(ids) && free == []
      ensures old(free) != [] ==> id == old(free)[0] && ids == old(ids)[name := id] && free == old(free)[1..]
    {
      if free == [] {
        return CONTENT_IGNORE;
      }
      id := free[0];
      ids := ids[name := id];
      free := free[1..];
    }
  }

  // What the cache holds is what a lookup would give, so it never changes a result.
  ghost predicate Cached(cache: seq<u16>, idToName: map<u16, string>, ids: map<string, u16>) {
    && |cache| == 0x1_0000
    && forall k: u16 :: cache[k] != 0xFFFF ==> k in idToName && idToName[k] in ids && cache[k] == ids[idToName[k]]
  }

  predicate Resolved(was: MapNode, now: MapNode, idToName: map<u16, string>, ids: map<string, u16>) {
    was.param0 in idToName && idToName[was.param0] in ids && now == was.(param0 := ids[idToName[was.param0]])
  }

  ghost predicate Extends(ids: map<string, u16>, was: map<string, u16>) {
    forall name :: name in was ==> name in ids && ids[name] == was[name]
  }

  // The names of stored ids that are not registered here.
  function NewNames(nodes: seq<MapNode>, idToName: map<u16, string>, ids: map<string, u16>): set<string> {
    set j | 0 <= j < |nodes| && nodes[j].param0 in idToName && idToName[nodes[j].param0] !in ids ::
      idToName[nodes[j].param0]
  }

  predicate AllNamed(nodes: seq<MapNode>, idToName: map<u16, string>) {
    forall j :: 0 <= j < |nodes| ==> nodes[j].param0 in idToName
  }

  // The nodes can be corrected: each has a name, and there are ids for the new ones.
  predicate Correctable(nodes: seq<MapNode>, idToName: map<u16, string>, ids: map<string, u16>, free: seq<u16>) {
    AllNamed(nodes, idToName) && |NewNames(nodes, idToName, ids)| <= |free|
  }

  // A name that is not registered gets the first free id.
  predicate GivenOne(name: string, ids: map<string, u16>, free: seq<u16>, ids': map<string, u16>, free': seq<u16>) {
    if name in ids then ids' == ids && free' == free
    else free != [] && ids' == ids[name := free[0]] && free' == free[1..]
  }

  // The given names have got the first of the free ids.
  ghost predicate Allotted(names: set<string>, first: map<string, u16>, all: seq<u16>, ids: map<string, u16>,
                           free: seq<u16>)
  {
    && ids.Keys == first.Keys + names && |names| <= |all| && free == all[|names|..]
    && IdsFrom(names, ids, all[..|names|])
  }

  ghost predicate IdsFrom(names: set<string>, ids: map<string, u16>, taken: seq<u16>) {
    forall name :: name in names ==> name in ids && ids[name] in taken
  }

  lemma AllotOne(names: set<string>, name: string, first: map<string, u16>, all: seq<u16>, ids: map<string, u16>,
                 free: seq<u16>)
    requires Allotted(names, first, all, ids, free) && name !in ids && free != []
    ensures Allotted(names + {name}, first, all, ids[name := free[0]], free[1..])
  {
    hide IdsFrom;
    var n := |names|;
    assert name !in names && |names + {name}| == n + 1;
    NextFree(all, n);
    KeysGrow(names, name, first, ids, free[0]);
    TakenGrow(names, name, ids, all[..n], all[n], all[..n + 1]);
  }

  lemma KeysGrow(names: set<string>, name: string, first: map<string, u16>, ids: map<string, u16>, id: u16)
    requires ids.Keys == first.Keys + names
    ensures ids[name := id].Keys == first.Keys + (names + {name})
  {
  }

  lemma TakenGrow(names: set<string>, name: string, ids: map<string, u16>, taken: seq<u16>, id: u16,
                  taken': seq<u16>)
    requires id in taken' && forall x :: x in taken ==> x in taken'
    requires IdsFrom(names, ids, taken)
    ensures IdsFrom(names + {name}, ids[name := id], taken')
  {
  }

  lemma NextFree(all: seq<u16>, n: nat)
    requires n < |all|
    ensures all[n] in all[..n + 1] && (forall x :: x in all[..n] ==> x in all[..n + 1])
    ensures all[n..][0] == all[n] && all[n..][1..] == all[n + 1..]
  {
    assert all[..n + 1] == all[..n] + [all[n]];
  }

  // All new names of the nodes have been given ids, in the order in which they are free.
  ghost predicate Given(nodes: seq<MapNode>, idToName: map<u16, string>, first: map<string, u16>, all: seq<u16>,
                        ids: map<string, u16>, free: seq<u16>)
  {
    AllNamed(nodes, idToName) && Allotted(NewNames(nodes, idToName, first), first, all, ids, free)
  }

  lemma NothingGiven(idToName: map<u16, string>, ids: map<string, u16>, all: seq<u16>)
    ensures Given([], idToName, ids, all, ids, all)
  {
    assert NewNames([], idToName, ids) == {};
  }

  lemma NewNamesNext(nodes: seq<MapNode>, i: nat, idToName: map<u16, string>, first: map<string, u16>)
    requires i < |nodes| && nodes[i].param0 in idToName
    ensures var name := idToName[nodes[i].param0];
      NewNames(nodes[..i + 1], idToName, first) ==
        NewNames(nodes[..i], idToName, first) + if name in first then {} else {name}
  {
    var name := idToName[nodes[i].param0];
    var before, now := nodes[..i], nodes[..i + 1];
    assert now == before + [nodes[i]];
    forall x | x in NewNames(before, idToName, first)
      ensures x in NewNames(now, idToName, first)
    {
      var j :| 0 <= j < |before| && before[j].param0 in idToName && idToName[before[j].param0] !in first
        && x == idToName[before[j].param0];
      assert now[j] == before[j];
    }
    if name !in first {
      assert now[i] == nodes[i];
    }
  }

  lemma GivenNext(was: seq<MapNode>, i: nat, idToName: map<u16, string>, first: map<string, u16>, all: seq<u16>,
                  ids: map<string, u16>, free: seq<u16>, ids': map<string, u16>, free': seq<u16>)
    requires i < |was| && Given(was[..i], idToName, first, all, ids, free) && was[i].param0 in idToName
    requires GivenOne(idToName[was[i].param0], ids, free, ids', free')
    ensures Given(was[..i + 1], idToName, first, all, ids', free')
  {
    hide NewNames, Allotted;
    NewNamesNext(was, i, idToName, first);
    assert was[..i + 1] == was[..i] + [was[i]];
    var name, names := idToName[was[i].param0], NewNames(was[..i], idToName, first);
    AllottedKeys(names, first, all, ids, free);
    if name in ids {
      assert names + (if name in first then {} else {name}) == names;
    } else {
      AllotOne(names, name, first, all, ids, free);
    }
  }

  lemma AllottedKeys(names: set<string>, first: map<string, u16>, all: seq<u16>, ids: map<string, u16>,
                     free: seq<u16>)
    requires Allotted(names, first, all, ids, free)
    ensures ids.Keys == first.Keys + names && |names| + |free| == |all|
  {
  }

  // Without a name, or without an id for it, the nodes cannot all be corrected.
  lemma NotGiven(was: seq<MapNode>, i: nat, idToName: map<u16, string>, first: map<string, u16>, all: seq<u16>,
                 ids: map<string, u16>, free: seq<u16>)
    requires i < |was| && Given(was[..i], idToName, first, all, ids, free)
    requires !(was[i].param0 in idToName && (idToName[was[i].param0] in ids || free != []))
    ensures !Correctable(was, idToName, first, all)
  {
    hide NewNames;
    if was[i].param0 in idToName {
      NewNamesNext(was, i, idToName, first);
      var name, names := idToName[was[i].param0], NewNames(was[..i], idToName, first);
      assert name !in names && |names + {name}| == |names| + 1;
      NewNamesGrow(was, i + 1, idToName, first);
      CardinalitySubset(names + {name}, NewNames(was, idToName, first));
    }
  }

  lemma NewNamesGrow(was: seq<MapNode>, i: nat, idToName: map<u16, string>, first: map<string, u16>)
    requires i <= |was|
    ensures NewNames(was[..i], idToName, first) <= NewNames(was, idToName, first)
  {
  }

  lemma {:induction false} CardinalitySubset(a: set<string>, b: set<string>)
    requires a <= b
    ensures |a| <= |b|
  {
    assert b == a + (b - a);
  }

  lemma AllGiven(was: seq<MapNode>, idToName: map<u16, string>, first: map<string, u16>, all: seq<u16>,
                 ids: map<string, u16>, free: seq<u16>)
    requires Given(was[..|was|], idToName, first, all, ids, free)
    ensures Given(was, idToName, first, all, ids, free) && Correctable(was, idToName, first, all)
  {
    assert was[..|was|] == was;
  }

  // MapBlock::correctBlockNodeIds. It fails on an id without a name, or if no id is left.
  method CorrectBlockNodeIds(idToName: map<u16, string>, nodes: array<MapNode>, gamedef: GameDef, cache: IdIdMapping)
    returns (ok: bool)
    requires cache.Valid() && CONTENT_IGNORE !in gamedef.free
    modifies nodes, gamedef, cache, cache.mapping
    ensures cache.Valid() && Extends(gamedef.ids, old(gamedef.ids))
    ensures ok ==> forall i :: 0 <= i < nodes.Length ==> Resolved(old(nodes[..])[i], nodes[i], idToName, gamedef.ids)
    ensures (forall i :: 0 <= i < nodes.Length ==>
      old(nodes[i].param0) in idToName && idToName[old(nodes[i].param0)] in old(gamedef.ids))
      ==> ok && gamedef.ids == old(gamedef.ids)
    ensures ok <==> Correctable(old(nodes[..]), idToName, old(gamedef.ids), old(gamedef.free))
    ensures ok ==>
      Given(old(nodes[..]), idToName, old(gamedef.ids), old(gamedef.free), gamedef.ids, gamedef.free)
  {
    hide Cached, Corrected, Resolved, Extends, SomeUnknown, Given, GivenOne, Correctable;
    cache.Clear();
    NothingCached(cache.mapping[..], idToName, gamedef.ids);
    ghost var was, wasIds := nodes[..], gamedef.ids;
    CorrectedStart(was, idToName, wasIds);
    UnknownMeans(was, idToName, wasIds);
    ghost var all := gamedef.free;
    NothingGiven(idToName, wasIds, all);
    assert was[..0] == [];
    var i := 0;
    while i < nodes.Length
      invariant i <= nodes.Length && cache.Valid() && Cached(cache.mapping[..], idToName, gamedef.ids)
      invariant Extends(gamedef.ids, wasIds) && CONTENT_IGNORE !in gamedef.free
      invariant Corrected(was, nodes[..], i, idToName, gamedef.ids)
      invariant gamedef.ids == wasIds || SomeUnknown(was, idToName, wasIds)
      invariant Given(was[..i], idToName, wasIds, all, gamedef.ids, gamedef.free)
    {
      ghost var now, ids, free := nodes[..], gamedef.ids, gamedef.free;
      CorrectedAt(was, now, i, idToName, ids);
      var id;
      ok, id := GlobalId(nodes[i].param0, idToName, gamedef, cache);
      StillUnknown(was, i, idToName, wasIds, ids, gamedef.ids);
      if !ok {
        NotGiven(was, i, idToName, wasIds, all, ids, free);
        return;
      }
      GivenNext(was, i, idToName, wasIds, all, ids, free, gamedef.ids, gamedef.free);
      CorrectedGrows(was, now, i, idToName, ids, gamedef.ids);
      CorrectedNext(was, now, i, idToName, gamedef.ids);
      nodes[i] := nodes[i].(param0 := id);
      assert nodes[..] == now[i := now[i].(param0 := id)];
      i := i + 1;
    }
    CorrectedEnd(was, nodes[..], i, idToName, gamedef.ids);
    AllGiven(was, idToName, wasIds, all, gamedef.ids, gamedef.free);
    ok := true;
  }

  // The body of the loop: the id of a stored id's name, from the cache if it is there.
  method GlobalId(localId: u16, idToName: map<u16, string>, gamedef: GameDef, cache: IdIdMapping)
    returns (ok: bool, id: u16)
    requires cache.Valid() && Cached(cache.mapping[..], idToName, gamedef.ids) && CONTENT_IGNORE !in gamedef.free
    modifies gamedef, cache, cache.mapping
    ensures cache.Valid() && Extends(gamedef.ids, old(gamedef.ids)) && CONTENT_IGNORE !in gamedef.free
    ensures ok ==> Cached(cache.mapping[..], idToName, gamedef.ids)
    ensures ok ==> localId in idToName && idToName[localId] in gamedef.ids && id == gamedef.ids[idToName[localId]]
    ensures localId in idToName && idToName[localId] in old(gamedef.ids) ==> ok
    ensures gamedef.ids == old(gamedef.ids) || (localId in idToName && idToName[localId] !in old(gamedef.ids))
    ensures ok <==> localId in idToName && (idToName[localId] in old(gamedef.ids) || old(gamedef.free) != [])
    ensures ok ==> GivenOne(idToName[localId], old(gamedef.ids), old(gamedef.free), gamedef.ids, gamedef.free)
  {
    hide Cached;
    id := cache.mapping[localId];
    if id != 0xFFFF {
      CacheHit(cache.mapping[..], idToName, gamedef.ids, localId);
      return true, id;
    }
    if localId !in idToName {
      return false, id;
    }
    var name := idToName[localId];
    if name in gamedef.ids {
      id := gamedef.ids[name];
    } else {
      ghost var ids := gamedef.ids;
      id := gamedef.AllocateUnknownNodeId(name);
      if id == CONTENT_IGNORE {
        return false, id;
      }
      CacheExtends(cache.mapping[..], idToName, ids, gamedef.ids);
    }
    CacheSet(cache.mapping[..], idToName, gamedef.ids, localId);
    cache.Set(localId, id);
    ok := true;
  }

  // The first i nodes have the ids of their names, the others are as they were.
  ghost predicate Corrected(was: seq<MapNode>, nodes: seq<MapNode>, i: nat, idToName: map<u16, string>,
                            ids: map<string, u16>)
  {
    && i <= |nodes| == |was| && nodes[i..] == was[i..]
    && forall j :: 0 <= j < i ==> Resolved(was[j], nodes[j], idToName, ids)
  }

  lemma CorrectedStart(was: seq<MapNode>, idToName: map<u16, string>, ids: map<string, u16>)
    ensures Corrected(was, was, 0, idToName, ids) && Extends(ids, ids)
  {
  }

  lemma CorrectedAt(was: seq<MapNode>, nodes: seq<MapNode>, i: nat, idToName: map<u16, string>, ids: map<string, u16>)
    requires Corrected(was, nodes, i, idToName, ids) && i < |nodes|
    ensures i < |was| && nodes[i] == was[i]
  {
    assert nodes[i] == nodes[i..][0] && was[i] == was[i..][0];
  }

  lemma CorrectedGrows(was: seq<MapNode>, nodes: seq<MapNode>, i: nat, idToName: map<u16, string>,
                       ids: map<string, u16>, ids': map<string, u16>)
    requires Corrected(was, nodes, i, idToName, ids) && Extends(ids', ids)
    ensures Corrected(was, nodes, i, idToName, ids')
  {
  }

  lemma CorrectedNext(was: seq<MapNode>, nodes: seq<MapNode>, i: nat, idToName: map<u16, string>, ids: map<string, u16>)
    requires Corrected(was, nodes, i, idToName, ids) && i < |nodes|
    requires nodes[i].param0 in idToName && idToName[nodes[i].param0] in ids
    ensures Corrected(was, nodes[i := nodes[i].(param0 := ids[idToName[nodes[i].param0]])], i + 1, idToName, ids)
  {
    CorrectedAt(was, nodes, i, idToName, ids);
    assert nodes[i + 1..] == nodes[i..][1..] && was[i + 1..] == was[i..][1..];
  }

  lemma CorrectedEnd(was: seq<MapNode>, nodes: seq<MapNode>, i: nat, idToName: map<u16, string>, ids: map<string, u16>)
    requires Corrected(was, nodes, i, idToName, ids) && i == |nodes|
    ensures forall j :: 0 <= j < |nodes| ==> Resolved(was[j], nodes[j], idToName, ids)
  {
  }

  // New ids are given only if some name is unknown.
  lemma StillUnknown(was: seq<MapNode>, i: nat, idToName: map<u16, string>, first: map<string, u16>,
                     ids: map<string, u16>, ids': map<string, u16>)
    requires i < |was| && Extends(ids, first) && Extends(ids', ids)
    requires ids == first || SomeUnknown(was, idToName, first)
    requires ids' == ids || (was[i].param0 in idToName && idToName[was[i].param0] !in ids)
    ensures Extends(ids', first) && (ids' == first || SomeUnknown(was, idToName, first))
  {
  }

  ghost predicate SomeUnknown(nodes: seq<MapNode>, idToName: map<u16, string>, ids: map<string, u16>) {
    exists j :: 0 <= j < |nodes| && nodes[j].param0 in idToName && idToName[nodes[j].param0] !in ids
  }

  lemma UnknownMeans(was: seq<MapNode>, idToName: map<u16, string>, ids: map<string, u16>)
    ensures (forall j :: 0 <= j < |was| ==> was[j].param0 in idToName && idToName[was[j].param0] in ids)
      ==> !SomeUnknown(was, idToName, ids)
  {
  }

  lemma NothingCached(cache: seq<u16>, idToName: map<u16, string>, ids: map<string, u16>)
    requires |cache| == 0x1_0000 && forall k :: 0 <= k < 0x1_0000 ==> cache[k] == 0xFFFF
    ensures Cached(cache, idToName, ids)
  {
  }

  lemma CacheHit(cache: seq<u16>, idToName: map<u16, string>, ids: map<string, u16>, k: u16)
    requires Cached(cache, idToName, ids) && cache[k] != 0xFFFF
    ensures k in idToName && idToName[k] in ids && cache[k] == ids[idToName[k]]
  {
  }

  lemma CacheExtends(cache: seq<u16>, idToName: map<u16, string>, was: map<string, u16>, ids: map<string, u16>)
    requires Cached(cache, idToName, was) && Extends(ids, was)
    ensures Cached(cache, idToName, ids)
  {
  }

  lemma CacheSet(cache: seq<u16>, idToName: map<u16, string>, ids: map<string, u16>, k: u16)
    requires Cached(cache, idToName, ids) && k in idToName && idToName[k] in ids
    ensures |cache| == 0x1_0000 && Cached(cache[k := ids[idToName[k]]], idToName, ids)
  {
  }
}

module MapBlocks {
  import opened Numbers
  import opened NodeIds
  import opened NodeCodec

  // Bytes and names from which the nodes can be read back.
  ghost predicate Stores(bytes: seq<u8>, idToName: map<u16, string>, nodes: seq<MapNode>, names: u16 -> string) {
    |bytes| == 4 * |nodes| && forall i :: 0 <= i < |nodes| ==>
      var read := NodeAt(bytes, |nodes|, 2, i);
      && read.param0 in idToName && idToName[read.param0] == names(nodes[i].param0)
      && read.param1 == nodes[i].param1 && read.param2 == nodes[i].param2
  }

  class MapBlock {
    const isClient: bool
    var data: array<MapNode>
    var isMonoBlock: bool

    // A block of one node for all is not kept on a client.
    ghost predicate Valid()
      reads this
    {
      data.Length == (if isMonoBlock then 1 else NODECOUNT) && !(isClient && isMonoBlock)
    }

    // The nodes of the block, however they are kept.
    ghost function Nodes(): (r: seq<MapNode>)
      requires Valid()
      reads this, data
      ensures |r| == 16 * 16 * 16
    {
      if isMonoBlock then Repeat(data[0], NODECOUNT) else data[..]
    }

    constructor (node: MapNode, isClient: bool)
      ensures Valid() && fresh(data) && Nodes() == Repeat(node, NODECOUNT) && this.isClient == isClient && !isMonoBlock
    {
      this.isClient := isClient;
      data := new MapNode[NODECOUNT](_ => node);
      isMonoBlock := false;
    }

    method Reallocate(count: nat, node: MapNode)
      requires count == NODECOUNT || (count == 1 && !isClient)
      modifies this
      ensures Valid() && fresh(data) && isMonoBlock == (count == 1) && Nodes() == Repeat(node, NODECOUNT)
    {
      data := new MapNode[count](_ => node);
      isMonoBlock := count == 1;
    }

    // One node is kept exactly if all are equal, but not on a client; the block's nodes stay the same.
    method TryShrinkNodes()
      requires Valid()
      modifies this
      ensures Valid() && Nodes() == old(Nodes()) && (data == old(data) || fresh(data))
      ensures isClient ==> !isMonoBlock && data == old(data)
      ensures !isClient ==> (isMonoBlock <==> forall i :: 0 <= i < NODECOUNT ==> Nodes()[i] == Nodes()[0])
    {
      if isClient {
        return;
      }
      if isMonoBlock {
        return;
      }
      var n := data[0];
      var same := true;
      var i := 1;
      while i < NODECOUNT
        invariant 1 <= i <= NODECOUNT && same && forall j :: 0 <= j < i ==> data[j] == n
      {
        if n != data[i] {
          same := false;
          break;
        }
        i := i + 1;
      }
      if same {
        ghost var was := data[..];
        Reallocate(1, n);
        assert Nodes() == was;
      }
    }

    method ExpandNodesIfNeeded()
      requires Valid()
      modifies this
      ensures Valid() && !isMonoBlock && Nodes() == old(Nodes()) && (data == old(data) || fresh(data))
    {
      if isMonoBlock {
        Reallocate(NODECOUNT, data[0]);
      }
    }

    method CopyNodes() returns (copy: array<MapNode>)
      ensures fresh(copy) && copy[..] == data[..]
    {
      copy := new MapNode[data.Length](i requires 0 <= i < data.Length reads this, data => data[i]);
    }

    // The node data of serialize, for the disk: a copy of the nodes is renumbered and written.
    method StoreNodes(mapping: IdIdMapping, names: u16 -> string) returns (buf: array<u8>, idToName: map<u16, string>)
      requires Valid() && mapping.Valid()
      modifies mapping, mapping.mapping
      ensures fresh(buf) && mapping.Valid() && Stores(buf[..], idToName, Nodes(), names)
    {
      hide Stores, Planes, Distinct, NamesOf, Renumbered;
      ghost var kept := data[..];
      var copy := CopyNodes();
      idToName := GetBlockNodeIdMapping(copy, mapping, names);
      buf := SerializeBulk(copy, NODECOUNT, isMonoBlock);
      StoredNodes(kept, NODECOUNT, isMonoBlock, names);
    }

    // The node data of deSerialize.
    method LoadNodes(buf: array<u8>, idToName: map<u16, string>, contentWidth: nat, paramsWidth: nat,
                     gamedef: GameDef, cache: IdIdMapping)
      returns (ok: bool)
      requires Valid() && cache.Valid() && CONTENT_IGNORE !in gamedef.free
      requires cache.mapping as object != data as object && buf as object != data as object
      requires (contentWidth == 1 || contentWidth == 2) && paramsWidth == 2 ==>
        buf.Length == NODECOUNT * (contentWidth + 2)
      modifies this, data, gamedef, cache, cache.mapping
      ensures Valid() && cache.Valid() && Extends(gamedef.ids, old(gamedef.ids))
      ensures ok ==> (contentWidth == 1 || contentWidth == 2) && paramsWidth == 2 && forall i :: 0 <= i < NODECOUNT ==>
        Resolved(NodeAt(old(buf[..]), NODECOUNT, contentWidth, i), Nodes()[i], idToName, gamedef.ids)
      ensures (contentWidth == 1 || contentWidth == 2) && paramsWidth == 2 &&
        (forall i :: 0 <= i < NODECOUNT ==>
         Known(NodeAt(old(buf[..]), NODECOUNT, contentWidth, i), idToName, old(gamedef.ids)))
        ==> ok && gamedef.ids == old(gamedef.ids)
      // It fails exactly on other widths, a node without a name, or too many names that are new here.
      ensures ok <==>
        && (contentWidth == 1 || contentWidth == 2) && paramsWidth == 2
        && Correctable(NodesRead(old(buf[..]), NODECOUNT, contentWidth), idToName, old(gamedef.ids), old(gamedef.free))
      ensures ok ==> Given(NodesRead(old(buf[..]), NODECOUNT, contentWidth), idToName, old(gamedef.ids),
                           old(gamedef.free), gamedef.ids, gamedef.free)
      ensures ok && |idToName| == 1 && !isClient ==>
        (isMonoBlock <==> forall i :: 0 <= i < NODECOUNT ==> Nodes()[i] == Nodes()[0])
      ensures ok && |idToName| != 1 ==> !isMonoBlock
    {
      hide Given, Correctable, NodeAt;
      ExpandNodesIfNeeded();
      ok := DeSerializeBulk(buf, data, contentWidth, paramsWidth);
      if ok {
        assert data[..] == NodesRead(buf[..], NODECOUNT, contentWidth);
        ok := CorrectBlockNodeIds(idToName, data, gamedef, cache);
        if ok && |idToName| == 1 {
          TryShrinkNodes();
        }
      }
    }
  }

  predicate Known(node: MapNode, idToName: map<u16, string>, ids: map<string, u16>) {
    node.param0 in idToName && idToName[node.param0] in ids
  }

  lemma StoresPlanes(all: seq<MapNode>, nodes: seq<MapNode>, idToName: map<u16, string>, names: u16 -> string)
    requires |all| == |nodes|
    requires forall i :: 0 <= i < |nodes| ==> Named(all[i], nodes[i], idToName, names)
    ensures Stores(Planes(all), idToName, nodes, names)
  {
    hide PlaneByte, NodeAt;
    forall i | 0 <= i < |nodes|
      ensures NodeAt(Planes(all), |nodes|, 2, i) == all[i]
    {
      PlanesRead(all, i);
    }
  }

  lemma StoredNodes(data: seq<MapNode>, n: nat, mono: bool, names: u16 -> string)
    requires n <= NODECOUNT && if mono then |data| == 1 else |data| == n
    ensures var d := Distinct(data);
      && |d| < 0xFFFF && (forall i :: 0 <= i < |data| ==> data[i].param0 in d)
      && var r := Renumbered(data, d);
        Stores(Planes(if mono then Repeat(r[0], n) else r), NamesOf(d, names), if mono then Repeat(data[0], n)
               else data, names)
  {
    hide Stores, Planes, Distinct, NamesOf, Renumbered;
    DistinctHasAll(data);
    var d := Distinct(data);
    var r := Renumbered(data, d);
    forall i | 0 <= i < |data|
      ensures Named(r[i], data[i], NamesOf(d, names), names)
    {
      RenumberedNamed(data, names, i);
    }
    StoresEither(data, r, n, mono, NamesOf(d, names), names);
  }

  // The node is numbered, and its number has its content's name.
  predicate Named(node: MapNode, was: MapNode, idToName: map<u16, string>, names: u16 -> string) {
    && node.param0 in idToName && idToName[node.param0] == names(was.param0)
    && node.param1 == was.param1 && node.param2 == was.param2
  }

  lemma StoresEither(data: seq<MapNode>, r: seq<MapNode>, n: nat, mono: bool, idToName: map<u16, string>,
                     names: u16 -> string)
    requires |r| == |data| && if mono then |data| == 1 else |data| == n
    requires forall i :: 0 <= i < |data| ==> Named(r[i], data[i], idToName, names)
    ensures Stores(Planes(if mono then Repeat(r[0], n) else r), idToName, if mono then Repeat(data[0], n)
                   else data, names)
  {
    hide Stores, Planes, Repeat;
    if mono {
      StoresPlanes(Repeat(r[0], n), Repeat(data[0], n), idToName, names);
    } else {
      StoresPlanes(r, data, idToName, names);
    }
  }

  // A node read back has the content its name stands for here: it is restored exactly if that is
  // the content it had.
  lemma RoundTrip(bytes: seq<u8>, idToName: map<u16, string>, nodes: seq<MapNode>, names: u16 -> string,
                  ids: map<string, u16>, i: nat, loaded: MapNode)
    requires Stores(bytes, idToName, nodes, names) && i < |nodes| && names(nodes[i].param0) in ids
    ensures Known(NodeAt(bytes, |nodes|, 2, i), idToName, ids)
    ensures Resolved(NodeAt(bytes, |nodes|, 2, i), loaded, idToName, ids) ==>
      (loaded == nodes[i] <==> ids[names(nodes[i].param0)] == nodes[i].param0)
  {
    hide NodeAt;
  }

  // Storing a block and loading it into another restores every node whose name is registered here
  // under the content it has.
  method StoreAndLoad(block: MapBlock, other: MapBlock, names: u16 -> string, gamedef: GameDef, mapping: IdIdMapping)
    requires block.Valid() && other.Valid() && block != other && block.data != other.data && mapping.Valid()
    requires CONTENT_IGNORE !in gamedef.free
    requires mapping.mapping as object != other.data as object && mapping.mapping as object != block.data as object
    requires forall i :: 0 <= i < NODECOUNT ==>
      var c := block.Nodes()[i].param0; names(c) in gamedef.ids && gamedef.ids[names(c)] == c
    modifies other, other.data, gamedef, mapping, mapping.mapping
    ensures other.Valid() && other.Nodes() == old(block.Nodes())
  {
    hide Stores, NodeAt;
    ghost var nodes, ids := block.Nodes(), gamedef.ids;
    var buf, idToName := block.StoreNodes(mapping, names);
    StoresLength(buf[..], idToName, nodes, names);
    ghost var bytes := buf[..];
    forall i | 0 <= i < NODECOUNT
      ensures Known(NodeAt(bytes, NODECOUNT, 2, i), idToName, ids)
    {
      RoundTrip(bytes, idToName, nodes, names, ids, i, nodes[i]);
    }
    var ok := other.LoadNodes(buf, idToName, 2, 2, gamedef, mapping);
    assert ok;
    forall i | 0 <= i < NODECOUNT
      ensures other.Nodes()[i] == nodes[i]
    {
      RoundTrip(bytes, idToName, nodes, names, ids, i, other.Nodes()[i]);
    }
  }

  lemma StoresLength(bytes: seq<u8>, idToName: map<u16, string>, nodes: seq<MapNode>, names: u16 -> string)
    requires Stores(bytes, idToName, nodes, names)
    ensures |bytes| == 4 * |nodes|
  {
  }
}

/** pack_data: a 16-byte header in network order, then the fragments in m_nodes order. */
module PackedEvents {
  import opened Bytes
  import opened Numbers
  import opened Events
  import opened GapFreeRuns

  const HEADER_SIZE := 16
  const LEB_MAGIC := 0xffff_ffff
  const LEB_FLAG_COMPLETE := 1
  const LEB_FLAG_INCOMPLETE := 0

  /** struct packed_event. */
  function Header(length: nat, id: nat, nodes: nat, flag: nat): (h: seq<Byte>)
    ensures |h| == HEADER_SIZE
  {
    U32(LEB_MAGIC) + U32(length) + U16(id) + U16(nodes) + U32(flag)
  }

  /** The sixteen bytes, in network order. */
  lemma HeaderBytes(length: nat, id: nat, nodes: nat, flag: nat)
    ensures Header(length, id, nodes, flag)
            == [0xff, 0xff, 0xff, 0xff,
                length / 0x100_0000 % 256, length / 0x1_0000 % 256, length / 0x100 % 256, length % 256,
                id / 0x100 % 256, id % 256, nodes / 0x100 % 256, nodes % 256,
                flag / 0x100_0000 % 256, flag / 0x1_0000 % 256, flag / 0x100 % 256, flag % 256]
  {
    HighFirst(length);
    HighFirst(id);
    HighFirst(nodes);
    HighFirst(flag);
  }

  /** The 32-bit fields of a header read back. */
  lemma HeaderLongs(length: nat, id: nat, nodes: nat, flag: nat)
    ensures var h := Header(length, id, nodes, flag);
            h[..4] == U32(LEB_MAGIC) && GetU32(h, 4) == length % 0x1_0000_0000 && GetU32(h, 12) == flag % 0x1_0000_0000
  {
    var h := Header(length, id, nodes, flag);
    assert h[4..8] == U32(length) && h[12..16] == U32(flag);
    U32RoundTrip(length, h, 4);
    U32RoundTrip(flag, h, 12);
  }

  /** The 16-bit fields of a header read back. */
  lemma HeaderShorts(length: nat, id: nat, nodes: nat, flag: nat)
    ensures var h := Header(length, id, nodes, flag);
            GetU16(h, 8) == id % 0x1_0000 && GetU16(h, 10) == nodes % 0x1_0000
  {
    var h := Header(length, id, nodes, flag);
    assert h[8..10] == U16(id) && h[10..12] == U16(nodes);
    U16RoundTrip(id, h, 8);
    U16RoundTrip(nodes, h, 10);
  }

  /** The data blocks of node n among the first k of the event, in arrival order. */
  function BlocksOf(e: Event, n: nat, k: nat): seq<seq<Byte>>
    requires k <= |e.data| <= |e.node|
  {
    if k == 0 then []
    else if e.node[k - 1] == n then BlocksOf(e, n, k - 1) + [e.data[k - 1]]
    else BlocksOf(e, n, k - 1)
  }

  /** The blocks in the order of the node list. */
  function Selected(nodes: seq<nat>, e: Event): seq<seq<Byte>>
    requires |e.data| <= |e.node|
  {
    if nodes == [] then []
    else Selected(nodes[..|nodes| - 1], e) + BlocksOf(e, nodes[|nodes| - 1], |e.data|)
  }

  /** All the blocks of a node come before those of the nodes behind it in the list. */
  lemma {:induction false} NodeByNode(a: seq<nat>, n: nat, b: seq<nat>, e: Event)
    requires |e.data| <= |e.node|
    ensures Selected(a + [n] + b, e) == Selected(a, e) + BlocksOf(e, n, |e.data|) + Selected(b, e)
  {
    if b == [] {
      assert (a + [n] + b)[..|a|] == a;
    } else {
      var m := |b| - 1;
      NodeByNode(a, n, b[..m], e);
      assert (a + [n] + b)[..|a| + 1 + m] == a + [n] + b[..m];
    }
  }

  /** is_fullev is overwritten for each node, so only the last one of the list decides. */
  predicate LastNodePresent(nodes: seq<nat>, e: Event, before: bool) {
    if nodes == [] then before else nodes[|nodes| - 1] in e.node[..Min(|e.data|, |e.node|)]
  }

  function FlagOf(full: bool): nat {
    if full then LEB_FLAG_COMPLETE else LEB_FLAG_INCOMPLETE
  }

  function Packed(nodes: seq<nat>, id: nat, e: Event, before: bool): seq<Byte>
    requires |e.data| <= |e.node|
  {
    var body := Flatten(Selected(nodes, e));
    Header(|body|, id, |e.data|, FlagOf(LastNodePresent(nodes, e, before))) + body
  }

  lemma {:induction false} BlocksOfPresent(e: Event, n: nat, k: nat)
    requires k <= |e.data| <= |e.node|
    ensures BlocksOf(e, n, k) != [] <==> n in e.node[..k]
  {
    if k > 0 {
      BlocksOfPresent(e, n, k - 1);
      assert e.node[..k] == e.node[..k - 1] + [e.node[k - 1]];
    }
  }

  /** The inner loop: appends node n's blocks and reports whether there were any. */
  method AppendBlocks(e: Event, n: nat, buf: seq<Byte>, wcount: nat)
      returns (buf': seq<Byte>, wcount': nat, isMatch: bool)
    requires |e.data| <= |e.node|
    ensures buf' == buf + Flatten(BlocksOf(e, n, |e.data|))
    ensures wcount' == wcount + |Flatten(BlocksOf(e, n, |e.data|))|
    ensures isMatch <==> n in e.node[..|e.data|]
  {
    buf', wcount', isMatch := buf, wcount, false;
    ghost var blocks: seq<seq<Byte>> := [];
    var j := 0;
    while j < |e.data|
      invariant 0 <= j <= |e.data|
      invariant blocks == BlocksOf(e, n, j)
      invariant buf' == buf + Flatten(blocks) && |buf'| == |buf| + (wcount' - wcount)
      invariant isMatch <==> blocks != []
    {
      if e.node[j] == n {
        AppendOne(buf, blocks, e.data[j]);
        blocks := blocks + [e.data[j]];
        buf', wcount', isMatch := buf' + e.data[j], wcount' + |e.data[j]|, true;
      }
      j := j + 1;
    }
    BlocksOfPresent(e, n, |e.data|);
  }

  lemma AppendOne(buf: seq<Byte>, blocks: seq<seq<Byte>>, b: seq<Byte>)
    ensures buf + Flatten(blocks) + b == buf + Flatten(blocks + [b])
  {
  }

  /** The whole of pack_data: header with blanks, blocks, then length and flag patched in. */
  method PackData(nodes: seq<nat>, id: nat, e: Event, before: bool) returns (buf: seq<Byte>)
    requires |e.data| <= |e.node|
    ensures buf == Packed(nodes, id, e, before)
  {
    buf := Header(0, id, |e.data|, 0);
    var wcount, full, i := 0, before, 0;
    assert nodes[..0] == [];
    while i < |nodes|
      invariant 0 <= i <= |nodes|
      invariant buf == Header(0, id, |e.data|, 0) + Flatten(Selected(nodes[..i], e))
      invariant wcount == |Flatten(Selected(nodes[..i], e))|
      invariant full <==> LastNodePresent(nodes[..i], e, before)
    {
      var isMatch;
      assert nodes[..i + 1][..i] == nodes[..i];
      FlattenAppend(Selected(nodes[..i], e), BlocksOf(e, nodes[i], |e.data|));
      buf, wcount, isMatch := AppendBlocks(e, nodes[i], buf, wcount);
      full := isMatch;
      i := i + 1;
    }
    assert nodes[..i] == nodes;
    var flag := if full then LEB_FLAG_COMPLETE else LEB_FLAG_INCOMPLETE;
    ghost var body := Flatten(Selected(nodes, e));
    buf := buf[..4] + U32(wcount) + buf[8..12] + U32(flag) + buf[16..];
    PatchedHeader(|body|, id, |e.data|, flag, body);
  }

  lemma PatchedHeader(length: nat, id: nat, nodes: nat, flag: nat, body: seq<Byte>)
    ensures var raw := Header(0, id, nodes, 0) + body;
            raw[..4] + U32(length) + raw[8..12] + U32(flag) + raw[16..]
            == Header(length, id, nodes, flag) + body
  {
  }

  /** The number, and the total size, of the first k blocks whose node is in the list. */
  function CountIn(e: Event, nodes: seq<nat>, k: nat): nat
    requires k <= |e.data| <= |e.node|
  {
    if k == 0 then 0
    else CountIn(e, nodes, k - 1) + if e.node[k - 1] in nodes then 1 else 0
  }

  function SizeIn(e: Event, nodes: seq<nat>, k: nat): nat
    requires k <= |e.data| <= |e.node|
  {
    if k == 0 then 0
    else SizeIn(e, nodes, k - 1) + if e.node[k - 1] in nodes then |e.data[k - 1]| else 0
  }

  lemma {:induction false} OneMoreNode(e: Event, nodes: seq<nat>, n: nat, k: nat)
    requires k <= |e.data| <= |e.node| && n !in nodes
    ensures CountIn(e, nodes + [n], k) == CountIn(e, nodes, k) + |BlocksOf(e, n, k)|
    ensures SizeIn(e, nodes + [n], k) == SizeIn(e, nodes, k) + |Flatten(BlocksOf(e, n, k))|
  {
    if k > 0 {
      OneMoreNode(e, nodes, n, k - 1);
    }
  }

  /** Packing visits each block of a listed node once, whatever the order of arrival. */
  lemma {:induction false} SelectedTotals(nodes: seq<nat>, e: Event)
    requires |e.data| <= |e.node| && NoRepeat(nodes)
    ensures |Selected(nodes, e)| == CountIn(e, nodes, |e.data|)
    ensures |Flatten(Selected(nodes, e))| == SizeIn(e, nodes, |e.data|)
  {
    if nodes == [] {
      NoneIn(e, |e.data|);
    } else {
      var k := |nodes| - 1;
      SelectedTotals(nodes[..k], e);
      assert nodes == nodes[..k] + [nodes[k]];
      OneMoreNode(e, nodes[..k], nodes[k], |e.data|);
      FlattenAppend(Selected(nodes[..k], e), BlocksOf(e, nodes[k], |e.data|));
    }
  }

  lemma {:induction false} NoneIn(e: Event, k: nat)
    requires k <= |e.data| <= |e.node|
    ensures CountIn(e, [], k) == 0 && SizeIn(e, [], k) == 0
  {
    if k > 0 {
      NoneIn(e, k - 1);
    }
  }

  lemma AsManyBlocks(e: Event, n: nat, k: nat)
    requires k <= |e.data| <= |e.node|
    ensures |BlocksOf(e, n, k)| == CountIn(e, [n], k)
  {
    NoneIn(e, k);
    OneMoreNode(e, [], n, k);
    assert [] + [n] == [n];
  }

  /** A node that sent twice has its blocks in arrival order: one of its own has as many before it. */
  lemma {:induction false} InArrivalOrder(e: Event, n: nat, j: nat, k: nat)
    requires j < k <= |e.data| <= |e.node|
    ensures |BlocksOf(e, n, k)| == CountIn(e, [n], k)
    ensures e.node[j] == n ==> CountIn(e, [n], j) < CountIn(e, [n], k)
                               && BlocksOf(e, n, k)[CountIn(e, [n], j)] == e.data[j]
  {
    AsManyBlocks(e, n, k);
    if j < k - 1 {
      InArrivalOrder(e, n, j, k - 1);
    } else {
      AsManyBlocks(e, n, j);
    }
  }

  lemma {:induction false} AllIn(e: Event, nodes: seq<nat>, k: nat)
    requires k <= |e.data| <= |e.node|
    requires forall j :: 0 <= j < |e.data| ==> e.node[j] in nodes
    ensures CountIn(e, nodes, k) == k && SizeIn(e, nodes, k) == |Flatten(e.data[..k])|
  {
    if k == 0 {
      assert e.data[..0] == [];
    } else {
      AllIn(e, nodes, k - 1);
      assert e.data[..k][..k - 1] == e.data[..k - 1];
    }
  }

  /** An event of configured nodes packs all its blocks: their number and their sizes. */
  lemma PacksEverything(nodes: seq<nat>, e: Event)
    requires |e.data| == |e.node| && NoRepeat(nodes) && forall n :: n in e.node ==> n in nodes
    ensures |Selected(nodes, e)| == |e.data|
    ensures |Flatten(Selected(nodes, e))| == |Flatten(e.data)|
  {
    SelectedTotals(nodes, e);
    AllIn(e, nodes, |e.data|);
    assert e.data[..|e.data|] == e.data;
  }

  /** The packed size is the header and what the length field says. */
  lemma PackedSize(nodes: seq<nat>, id: nat, e: Event, before: bool)
    requires |e.data| <= |e.node| && |Flatten(Selected(nodes, e))| < 0x1_0000_0000
    ensures |Packed(nodes, id, e, before)| == HEADER_SIZE + GetU32(Packed(nodes, id, e, before), 4)
  {
    var p, length := Packed(nodes, id, e, before), |Flatten(Selected(nodes, e))|;
    assert p[4..8] == U32(length);
    U32RoundTrip(length, p, 4);
  }

  /** In an event that lists node n once, at j, the blocks of n are the j-th alone. */
  lemma {:induction false} OnlyBlock(e: Event, j: nat, k: nat)
    requires j < |e.data| && k <= |e.data| <= |e.node| && NoRepeat(e.node)
    ensures BlocksOf(e, e.node[j], k) == if j < k then [e.data[j]] else []
  {
    if k > 0 {
      OnlyBlock(e, j, k - 1);
    }
  }

  /** Position of node n in the event. */
  function IndexOf(s: seq<nat>, n: nat): (j: nat)
    requires n in s
    ensures j < |s| && s[j] == n
  {
    if s[0] == n then 0 else
      assert n in s[1..];
      1 + IndexOf(s[1..], n)
  }

  lemma {:induction false} OneBlockPerNode(nodes: seq<nat>, e: Event)
    requires |e.data| == |e.node| && NoRepeat(e.node) && forall n :: n in nodes ==> n in e.node
    ensures |Selected(nodes, e)| == |nodes|
    ensures forall k :: 0 <= k < |nodes| ==> Selected(nodes, e)[k] == e.data[IndexOf(e.node, nodes[k])]
  {
    if nodes != [] {
      var m := |nodes| - 1;
      OneBlockPerNode(nodes[..m], e);
      OnlyBlock(e, IndexOf(e.node, nodes[m]), |e.data|);
    }
  }

  /**
   An event with as many distinct configured ids as there are nodes packs one block per
   configured node, in the order of the node list, all of the bytes, and the COMPLETE flag.
   */
  lemma CompletePacks(nodes: seq<nat>, id: nat, e: Event, before: bool)
    requires nodes != [] && NoRepeat(nodes) && |e.data| == |e.node|
    requires NoRepeat(e.node) && |e.node| >= |nodes| && forall n :: n in e.node ==> n in nodes
    ensures Complete(nodes, e) && |Selected(nodes, e)| == |nodes|
    ensures forall k :: 0 <= k < |nodes| ==> Selected(nodes, e)[k] == e.data[IndexOf(e.node, nodes[k])]
    ensures Packed(nodes, id, e, before)
            == Header(|Flatten(e.data)|, id, |nodes|, LEB_FLAG_COMPLETE) + Flatten(Selected(nodes, e))
    ensures |Packed(nodes, id, e, before)| == HEADER_SIZE + |Flatten(e.data)|
  {
    Pigeonhole(e.node, nodes);
    OneBlockPerNode(nodes, e);
    PacksEverything(nodes, e);
    assert e.node[..|e.data|] == e.node;
    assert nodes[|nodes| - 1] in nodes;
  }

  /** The flag field of the packed event. */
  function FlagField(packed: seq<Byte>): nat
    requires |packed| >= HEADER_SIZE
  {
    GetU32(packed, 12)
  }

  lemma FlagReadsBack(nodes: seq<nat>, id: nat, e: Event, before: bool)
    requires |e.data| <= |e.node|
    ensures |Packed(nodes, id, e, before)| >= HEADER_SIZE
    ensures FlagField(Packed(nodes, id, e, before)) == FlagOf(LastNodePresent(nodes, e, before))
  {
    var p, flag := Packed(nodes, id, e, before), FlagOf(LastNodePresent(nodes, e, before));
    assert p[12..16] == U32(flag);
    U32RoundTrip(flag, p, 12);
  }

  predicate AllPresent(nodes: seq<nat>, e: Event) {
    forall n :: n in nodes ==> n in e.node
  }

  /**
   The flag field reads back as COMPLETE for an event of all nodes, and for an event that lacks
   some exactly if the last node of the list is not among those.
   */
  lemma FlagMeaning(nodes: seq<nat>, id: nat, e: Event, before: bool)
    requires nodes != [] && |e.data| == |e.node|
    ensures |Packed(nodes, id, e, before)| >= HEADER_SIZE
    ensures var flag := FlagField(Packed(nodes, id, e, before));
            flag in {LEB_FLAG_COMPLETE, LEB_FLAG_INCOMPLETE}
            && (AllPresent(nodes, e) ==> flag == LEB_FLAG_COMPLETE)
            && (!AllPresent(nodes, e) ==> (flag == LEB_FLAG_COMPLETE <==> nodes[|nodes| - 1] in e.node))
  {
    FlagReadsBack(nodes, id, e, before);
    assert e.node[..|e.data|] == e.node;
    assert nodes[|nodes| - 1] in nodes;
  }

  /** Nodes 1 and 2 configured, only node 2 present: flagged COMPLETE. */
  lemma IncompleteFlaggedComplete(id: nat) returns (nodes: seq<nat>, e: Event)
    ensures NoRepeat(nodes) && |e.data| == |e.node| && !AllPresent(nodes, e)
    ensures |Packed(nodes, id, e, false)| >= HEADER_SIZE
    ensures FlagField(Packed(nodes, id, e, false)) == LEB_FLAG_COMPLETE
  {
    nodes, e := [1, 2], Event(7, [2], [[]]);
    assert 1 in nodes && 1 !in e.node;
    FlagMeaning(nodes, id, e, false);
  }
}

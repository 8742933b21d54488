/** Inventory replies: the server packs a list of records of different lengths into one
    response, and the client library takes it apart. */
module Inventory {
  import opened Bytes
  import opened Wrappers

  const TLV_INT := 1
  const TLV_BD_ATTR := 0x12
  const TLV_VFABRIC_ATTR := 0x15

  const BRIDGE_DEVICE: byte := 4
  const VFABRIC: byte := 5

  const QUERY: byte := 3
  const QUERY_INVENTORY: byte := 4

  /** What the codec depends on in the C structure of a record: its size, where and how wide
      its own count of children is, the size of a child, and whether the record travels
      behind a type and a length. */
  datatype Layout = Layout(size: nat, countAt: nat, countWidth: nat, childSize: nat, tagged: bool) {
    predicate Valid() {
      (countWidth == 1 || countWidth == 4) && countAt + countWidth <= size && (childSize == 4 || childSize == 8)
    }

    function Prefix(): nat {
      if tagged then 8 else 0
    }

    /** A bridge counts its gateway modules in one byte, 8 bytes to a module. */
    predicate IsBridge() {
      Valid() && countWidth == 1 && childSize == 8 && !tagged
    }

    /** A virtual fabric counts its adapters in four bytes, 4 bytes to an adapter. */
    predicate IsVfabric() {
      Valid() && countWidth == 4 && childSize == 4 && tagged
    }
  }

  /** The structure's bytes and its children's. */
  datatype Record = Record(attr: seq<byte>, children: seq<byte>)

  function ChildCount(layout: Layout, attr: seq<byte>): nat
    requires layout.Valid() && |attr| == layout.size
  {
    if layout.countWidth == 1 then attr[layout.countAt] else FromLe32(attr[layout.countAt..layout.countAt + 4])
  }

  /** The bytes of the children a structure says it has. */
  function ChildBytes(layout: Layout, attr: seq<byte>): nat
    requires layout.Valid() && |attr| == layout.size
  {
    if layout.childSize == 4 then ChildCount(layout, attr) * 4 else ChildCount(layout, attr) * 8
  }

  /** The record has the children it says it has. */
  predicate Fits(layout: Layout, r: Record) {
    && layout.Valid() && |r.attr| == layout.size
    && |r.children| == ChildBytes(layout, r.attr)
    && (layout.tagged ==> |r.attr| + |r.children| < 0x1_0000_0000)
  }

  predicate AllFit(layout: Layout, rs: seq<Record>) {
    forall i :: 0 <= i < |rs| ==> Fits(layout, rs[i])
  }

  // ---- the bytes ----

  function Tlv(tag: nat, value: seq<byte>): (r: seq<byte>)
    requires tag < 0x1_0000_0000 && |value| < 0x1_0000_0000
    ensures |r| == 8 + |value|
  {
    Le32(tag) + Le32(|value|) + value
  }

  function RecordBytes(layout: Layout, r: Record): (b: seq<byte>)
    requires Fits(layout, r)
    ensures |b| == layout.Prefix() + |r.attr| + |r.children|
  {
    if layout.tagged then Tlv(TLV_VFABRIC_ATTR, r.attr + r.children) else r.attr + r.children
  }

  function AllBytes(layout: Layout, rs: seq<Record>): seq<byte>
    requires AllFit(layout, rs)
  {
    if rs == [] then [] else RecordBytes(layout, rs[0]) + AllBytes(layout, rs[1..])
  }

  /** The header that starts a response: module, operation, two reserved bytes, length of
      the whole. */
  function Header(mod: byte, op: byte, reserved: seq<byte>, length: nat): (r: seq<byte>)
    requires |reserved| == 2 && length < 0x1_0000_0000
    ensures |r| == 8
  {
    [mod, op] + reserved + Le32(length)
  }

  /** Records behind their number. */
  function Counted(layout: Layout, rs: seq<Record>): (r: seq<byte>)
    requires AllFit(layout, rs) && |rs| < 0x8000_0000
    ensures |r| >= 4
  {
    Le32(|rs|) + AllBytes(layout, rs)
  }

  /** Sizes are kept in a signed 32-bit integer. */
  predicate Sendable(layout: Layout, rs: seq<Record>) {
    AllFit(layout, rs) && |rs| < 0x8000_0000 && |Counted(layout, rs)| < 0x8000_0000 - 28
  }

  function BridgeResponse(layout: Layout, op: byte, reserved: seq<byte>, rs: seq<Record>): (r: seq<byte>)
    requires Sendable(layout, rs) && |reserved| == 2
  {
    var data := Counted(layout, rs);
    Header(BRIDGE_DEVICE, op, reserved, 28 + |data|) + Tlv(TLV_INT, Le32(|data|)) + Tlv(TLV_BD_ATTR, data)
  }

  function VfabricResponse(layout: Layout, reserved: seq<byte>, rs: seq<Record>): (r: seq<byte>)
    requires Sendable(layout, rs) && |reserved| == 2
    ensures |r| >= 8
  {
    Header(VFABRIC, QUERY_INVENTORY, reserved, 8 + |Counted(layout, rs)|) + Counted(layout, rs)
  }

  // ---- reading ----

  /** The record at a position, and where the next one starts. None is a read past the end
      of what was received, which the source does not check. */
  function ReadRecord(layout: Layout, buff: seq<byte>, at: nat): Option<(Record, nat)>
    requires layout.Valid()
  {
    var p := at + layout.Prefix();
    if p + layout.size > |buff| then None
    else
      var attr := buff[p..p + layout.size];
      var q := p + layout.size + ChildBytes(layout, attr);
      if q > |buff| then None else Some((Record(attr, buff[p + layout.size..q]), q))
  }

  function Behind(rs: seq<Record>, rest: Option<seq<Record>>): Option<seq<Record>> {
    if rest.None? then None else Some(rs + rest.value)
  }

  function ReadRecords(layout: Layout, buff: seq<byte>, at: nat, n: nat): (r: Option<seq<Record>>)
    requires layout.Valid()
    ensures r.Some? ==> |r.value| == n
    decreases n
  {
    if n == 0 then Some([])
    else
      var first := ReadRecord(layout, buff, at);
      if first.None? then None else Behind([first.value.0], ReadRecords(layout, buff, first.value.1, n - 1))
  }

  function ReadCounted(layout: Layout, buff: seq<byte>, at: nat): Option<seq<Record>>
    requires layout.Valid()
  {
    if at + 4 > |buff| then None else ReadRecords(layout, buff, at + 4, FromLe32(buff[at..at + 4]))
  }

  /** The value of the TLV at a position. */
  function TlvValue(buff: seq<byte>, at: nat): Option<seq<byte>> {
    if at + 8 > |buff| then None
    else
      var length := FromLe32(buff[at + 4..at + 8]);
      if at + 8 + length > |buff| then None else Some(buff[at + 8..at + 8 + length])
  }

  /** What the client gets for a bridge response: for an inventory the second TLV, if the
      first fits the integer it is read into and announces enough room; for a query the
      first TLV; for anything else no records. */
  function BridgePayload(buff: seq<byte>): Option<seq<byte>> {
    if |buff| < 8 then None
    else
      var head := TlvValue(buff, 8);
      if buff[1] == QUERY then head
      else if buff[1] != QUERY_INVENTORY || buff[0] != BRIDGE_DEVICE then None
      else if head.None? || |head.value| != 4 then None
      else
        var data := TlvValue(buff, 20);
        if data.None? || |data.value| > FromLe32(head.value) then None else data
  }

  function ReadBridges(layout: Layout, buff: seq<byte>): Option<seq<Record>>
    requires layout.Valid()
  {
    var payload := BridgePayload(buff);
    if payload.None? then None else ReadCounted(layout, payload.value, 0)
  }

  function ReadVfabrics(layout: Layout, buff: seq<byte>): Option<seq<Record>>
    requires layout.Valid()
  {
    if |buff| < 8 || buff[1] != QUERY_INVENTORY || buff[0] != VFABRIC then None else ReadCounted(layout, buff, 8)
  }

  // ---- round trips ----

  lemma Slices(pre: seq<byte>, tag: seq<byte>, a: seq<byte>, b: seq<byte>, post: seq<byte>)
    ensures var buff := pre + (tag + (a + b) + post);
            var p := |pre| + |tag|;
            && |buff| == p + |a| + |b| + |post|
            && buff[p..p + |a|] == a && buff[p + |a|..p + |a| + |b|] == b
            && buff == (pre + (tag + (a + b))) + post
  {}

  function Tag(layout: Layout, r: Record): (t: seq<byte>)
    requires Fits(layout, r)
    ensures |t| == layout.Prefix()
  {
    if layout.tagged then Le32(TLV_VFABRIC_ATTR) + Le32(|r.attr + r.children|) else []
  }

  lemma RecordParts(layout: Layout, r: Record)
    requires Fits(layout, r)
    ensures RecordBytes(layout, r) == Tag(layout, r) + (r.attr + r.children)
  {}

  lemma RecordReadsBack(layout: Layout, pre: seq<byte>, r: Record, post: seq<byte>)
    requires Fits(layout, r)
    ensures ReadRecord(layout, pre + RecordBytes(layout, r) + post, |pre|)
         == Some((r, |pre| + |RecordBytes(layout, r)|))
  {
    hide RecordBytes, Tag, ChildBytes;
    RecordParts(layout, r);
    Slices(pre, Tag(layout, r), r.attr, r.children, post);
  }

  lemma {:induction false} ReadWritten(layout: Layout, pre: seq<byte>, rs: seq<Record>)
    requires layout.Valid() && AllFit(layout, rs)
    ensures ReadRecords(layout, pre + AllBytes(layout, rs), |pre|, |rs|) == Some(rs)
    decreases |rs|
  {
    hide RecordBytes, ReadRecord, Fits;
    if rs != [] {
      var r, rest := rs[0], rs[1..];
      var b, post := RecordBytes(layout, r), AllBytes(layout, rest);
      assert pre + (b + post) == pre + b + post;
      RecordReadsBack(layout, pre, r, post);
      ReadWritten(layout, pre + b, rest);
      assert rs == [r] + rest;
    }
  }

  lemma CountedRoundTrip(layout: Layout, pre: seq<byte>, rs: seq<Record>)
    requires layout.Valid() && AllFit(layout, rs) && |rs| < 0x8000_0000
    ensures ReadCounted(layout, pre + Counted(layout, rs), |pre|) == Some(rs)
  {
    var buff := pre + Counted(layout, rs);
    Le32RoundTrip(|rs|);
    assert buff[|pre|..|pre| + 4] == Le32(|rs|);
    assert buff == (pre + Le32(|rs|)) + AllBytes(layout, rs);
    ReadWritten(layout, pre + Le32(|rs|), rs);
  }

  lemma TlvAt(pre: seq<byte>, tag: nat, value: seq<byte>, post: seq<byte>)
    requires tag < 0x1_0000_0000 && |value| < 0x1_0000_0000
    ensures TlvValue(pre + Tlv(tag, value) + post, |pre|) == Some(value)
  {
    var buff := pre + Tlv(tag, value) + post;
    Le32RoundTrip(|value|);
    assert buff == pre + Le32(tag) + Le32(|value|) + value + post;
    assert buff[|pre| + 4..|pre| + 8] == Le32(|value|);
    assert buff[|pre| + 8..|pre| + 8 + |value|] == value;
  }

  /** Any list of virtual fabrics survives, whatever their numbers of adapters, and the
      declared length is the length. */
  lemma VfabricRoundTrip(layout: Layout, reserved: seq<byte>, rs: seq<Record>)
    requires layout.IsVfabric() && Sendable(layout, rs) && |reserved| == 2
    ensures var buff := VfabricResponse(layout, reserved, rs);
      ReadVfabrics(layout, buff) == Some(rs) && DeclaredLength(buff) == |buff|
  {
    var header := Header(VFABRIC, QUERY_INVENTORY, reserved, 8 + |Counted(layout, rs)|);
    CountedRoundTrip(layout, header, rs);
    LengthIsDeclared(VFABRIC, QUERY_INVENTORY, reserved, 8 + |Counted(layout, rs)|, Counted(layout, rs));
  }

  function DeclaredLength(buff: seq<byte>): nat
    requires |buff| >= 8
  {
    FromLe32(buff[4..8])
  }

  lemma LengthIsDeclared(mod: byte, op: byte, reserved: seq<byte>, length: nat, rest: seq<byte>)
    requires |reserved| == 2 && length < 0x1_0000_0000
    ensures DeclaredLength(Header(mod, op, reserved, length) + rest) == length
  {
    hide Le32, FromLe32;
    Le32RoundTrip(length);
    assert (Header(mod, op, reserved, length) + rest)[4..8] == Le32(length);
  }

  /** What the client's unmarshalling hands on: the data exactly under the inventory operation;
      under the query operation the size that travels in front of it. */
  lemma BridgePayloadIff(layout: Layout, op: byte, reserved: seq<byte>, rs: seq<Record>)
    requires Sendable(layout, rs) && |reserved| == 2 && (op == QUERY || op == QUERY_INVENTORY)
    ensures var data, payload := Counted(layout, rs), BridgePayload(BridgeResponse(layout, op, reserved, rs));
      && (payload == Some(data) <==> op == QUERY_INVENTORY)
      && (op == QUERY ==> payload == Some(Le32(|data|)))
  {
    hide Tlv, Le32, TlvValue, Counted;
    var data := Counted(layout, rs);
    var header := Header(BRIDGE_DEVICE, op, reserved, 28 + |data|);
    var first, second := Tlv(TLV_INT, Le32(|data|)), Tlv(TLV_BD_ATTR, data);
    var buff := BridgeResponse(layout, op, reserved, rs);
    assert buff == header + first + second + [];
    assert buff[0] == BRIDGE_DEVICE && buff[1] == op;
    TlvAt(header, TLV_INT, Le32(|data|), second);
    TlvAt(header + first, TLV_BD_ATTR, data, []);
    Le32RoundTrip(|data|);
    SizeIsNotData(layout, rs);
  }

  lemma SizeIsNotData(layout: Layout, rs: seq<Record>)
    requires Sendable(layout, rs)
    ensures Le32(|Counted(layout, rs)|) != Counted(layout, rs)
  {
    hide Le32, FromLe32, AllBytes;
    var data := Counted(layout, rs);
    if Le32(|data|) == data {
      assert AllBytes(layout, rs) == [] && data == Le32(|rs|);
      Le32RoundTrip(|rs|);
      Le32RoundTrip(|data|);
      assert |rs| == 4;
      AllBytesGrow(layout, rs);
    }
  }

  lemma AllBytesGrow(layout: Layout, rs: seq<Record>)
    requires AllFit(layout, rs) && rs != []
    ensures |AllBytes(layout, rs)| > 0
  {
    assert Fits(layout, rs[0]);
  }

  /** The same for bridges. The client's one function that unpacks bridges asks with the
      inventory operation, and the server answers with the operation it was asked with, so this
      is the case that occurs; a response under the query operation, which nothing unpacks,
      would not be understood. */
  lemma BridgeRoundTripIff(layout: Layout, op: byte, reserved: seq<byte>, rs: seq<Record>)
    requires layout.IsBridge() && Sendable(layout, rs) && |reserved| == 2
    requires op == QUERY || op == QUERY_INVENTORY
    ensures ReadBridges(layout, BridgeResponse(layout, op, reserved, rs)) == Some(rs) <==> op == QUERY_INVENTORY
    ensures DeclaredLength(BridgeResponse(layout, op, reserved, rs)) == |BridgeResponse(layout, op, reserved, rs)|
  {
    hide Tlv, TlvValue, BridgePayload, ReadCounted, Counted, Header, Le32, FromLe32, DeclaredLength;
    var data := Counted(layout, rs);
    var first, second := Tlv(TLV_INT, Le32(|data|)), Tlv(TLV_BD_ATTR, data);
    LengthIsDeclared(BRIDGE_DEVICE, op, reserved, 28 + |data|, first + second);
    var header := Header(BRIDGE_DEVICE, op, reserved, 28 + |data|);
    assert header + (first + second) == header + first + second;
    BridgePayloadIff(layout, op, reserved, rs);
    Le32RoundTrip(|data|);
    CountedRoundTrip(layout, [], rs);
    assert [] + data == data;
    if op == QUERY {
      SizeIsNoInventory(layout, Le32(|data|));
    }
  }

  lemma SizeIsNoInventory(layout: Layout, payload: seq<byte>)
    requires layout.Valid() && |payload| == 4 && FromLe32(payload) > 0
    ensures ReadCounted(layout, payload, 0) == None
  {}

  // ---- reading on ----

  lemma RecordDoesNotSeeBehind(layout: Layout, buff: seq<byte>, behind: seq<byte>, at: nat)
    requires layout.Valid() && ReadRecord(layout, buff, at).Some?
    ensures ReadRecord(layout, buff + behind, at) == ReadRecord(layout, buff, at)
  {
    hide ChildBytes;
    var p := at + layout.Prefix();
    assert (buff + behind)[p..p + layout.size] == buff[p..p + layout.size];
    var q := p + layout.size + ChildBytes(layout, buff[p..p + layout.size]);
    assert (buff + behind)[p + layout.size..q] == buff[p + layout.size..q];
  }

  lemma {:induction false} RecordsDoNotSeeBehind(layout: Layout, buff: seq<byte>, behind: seq<byte>, at: nat, n: nat)
    requires layout.Valid() && ReadRecords(layout, buff, at, n).Some?
    ensures ReadRecords(layout, buff + behind, at, n) == ReadRecords(layout, buff, at, n)
    decreases n
  {
    hide ReadRecord;
    if n > 0 {
      RecordDoesNotSeeBehind(layout, buff, behind, at);
      RecordsDoNotSeeBehind(layout, buff, behind, ReadRecord(layout, buff, at).value.1, n - 1);
    }
  }

  /** The source never asks where the reply ends. Given the memory behind it as well, reading is
      the same function of more bytes; and what is read inside the reply does not depend on
      what lies behind. */
  lemma ReplyDoesNotSeeBehind(layout: Layout, buff: seq<byte>, behind: seq<byte>, at: nat)
    requires layout.Valid()
    ensures ReadCounted(layout, buff, at).Some? ==>
      ReadCounted(layout, buff + behind, at) == ReadCounted(layout, buff, at)
    ensures TlvValue(buff, at).Some? ==> TlvValue(buff + behind, at) == TlvValue(buff, at)
  {
    hide ReadRecords;
    if at + 4 <= |buff| {
      assert (buff + behind)[at..at + 4] == buff[at..at + 4];
      if ReadCounted(layout, buff, at).Some? {
        RecordsDoNotSeeBehind(layout, buff, behind, at + 4, FromLe32(buff[at..at + 4]));
      }
    }
    if TlvValue(buff, at).Some? {
      assert (buff + behind)[at + 4..at + 8] == buff[at + 4..at + 8];
      var n := at + 8 + FromLe32(buff[at + 4..at + 8]);
      assert (buff + behind)[at + 8..n] == buff[at + 8..n];
    }
  }
}

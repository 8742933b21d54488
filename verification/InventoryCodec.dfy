/** The buffers behind the inventory replies: packing and marshalling on the server,
    unmarshalling and unpacking in the client library. */
module InventoryCodec {
  import opened Buffers
  import opened Bytes
  import opened Inventory
  import opened Wrappers

  lemma {:induction false} AllBytesAppend(layout: Layout, a: seq<Record>, b: seq<Record>)
    requires AllFit(layout, a) && AllFit(layout, b)
    ensures AllBytes(layout, a + b) == AllBytes(layout, a) + AllBytes(layout, b)
  {
    hide RecordBytes, Fits;
    if a == [] {
      assert a + b == b;
    } else {
      assert (a + b)[1..] == a[1..] + b;
      AllBytesAppend(layout, a[1..], b);
    }
  }

  lemma AllBytesNext(layout: Layout, rs: seq<Record>, i: nat)
    requires AllFit(layout, rs) && i < |rs|
    ensures AllBytes(layout, rs[..i + 1]) == AllBytes(layout, rs[..i]) + RecordBytes(layout, rs[i])
    ensures |AllBytes(layout, rs[..i + 1])| <= |AllBytes(layout, rs)|
  {
    hide RecordBytes, Fits;
    assert rs[..i + 1] == rs[..i] + [rs[i]];
    AllBytesAppend(layout, rs[..i], [rs[i]]);
    assert AllBytes(layout, [rs[i]]) == RecordBytes(layout, rs[i]) + AllBytes(layout, []);
    assert rs == rs[..i + 1] + rs[i + 1..];
    AllBytesAppend(layout, rs[..i + 1], rs[i + 1..]);
  }

  // ---- the server ----

  method Realloc(a: array<byte>, n: nat) returns (r: array<byte>)
    requires a.Length <= n
    ensures fresh(r) && r.Length == n && Holds(r, a[..])
  {
    r := new byte[n](i requires i >= 0 reads a => if i < a.Length then a[i] else 0);
  }

  lemma BridgeParts(layout: Layout, bridge: Record)
    requires layout.IsBridge() && Fits(layout, bridge)
    ensures |bridge.attr| == layout.size && |bridge.children| == 8 * bridge.attr[layout.countAt] as nat
    ensures RecordBytes(layout, bridge) == bridge.attr + bridge.children
  {}

  lemma Associate(a: seq<byte>, b: seq<byte>, c: seq<byte>)
    ensures a + b + c == a + (b + c)
  {}

  method AppendBridge(layout: Layout, was: array<byte>, bridge: Record) returns (data: array<byte>)
    requires layout.IsBridge() && Fits(layout, bridge)
    ensures fresh(data) && data[..] == was[..] + RecordBytes(layout, bridge)
  {
    BridgeParts(layout, bridge);
    hide Fits, RecordBytes, ChildBytes, ChildCount, Holds;
    ghost var done := was[..];
    var gwModuleSize := 8 * bridge.attr[layout.countAt] as nat;
    data := Realloc(was, was.Length + layout.size + gwModuleSize);
    var offset := data.Length - (layout.size + gwModuleSize);
    offset := Put(data, offset, bridge.attr, done);
    offset := Put(data, offset, bridge.children, done + bridge.attr);
    HoldsAll(data, done + bridge.attr + bridge.children);
    Associate(done, bridge.attr, bridge.children);
  }

  method PackBridgeData(layout: Layout, rs: seq<Record>) returns (data: array<byte>)
    requires layout.IsBridge() && Sendable(layout, rs)
    ensures fresh(data) && data[..] == Counted(layout, rs)
  {
    hide RecordBytes, Fits;
    data := new byte[4](_ => 0);
    var offset := Put(data, 0, Le32(|rs|), []);
    HoldsAll(data, Le32(|rs|));
    var i := 0;
    assert Le32(|rs|) + AllBytes(layout, rs[..0]) == Le32(|rs|);
    while i < |rs|
      invariant 0 <= i <= |rs| && fresh(data)
      invariant data[..] == Le32(|rs|) + AllBytes(layout, rs[..i])
    {
      AllBytesNext(layout, rs, i);
      data := AppendBridge(layout, data, rs[i]);
      i := i + 1;
    }
    assert rs[..|rs|] == rs;
  }

  function IdBytes(ids: seq<nat>): (r: seq<byte>)
    requires forall i :: 0 <= i < |ids| ==> ids[i] < 0x1_0000_0000
    ensures |r| == 4 * |ids|
  {
    if ids == [] then [] else IdBytes(ids[..|ids| - 1]) + Le32(ids[|ids| - 1])
  }

  /** The adapters of a virtual fabric arrive one by one, each written behind the one before;
      the cursor starts at 0. */
  method PopulateVadapterId(tlv: array<byte>, start: nat, ids: seq<nat>, ghost head: seq<byte>)
    requires forall i :: 0 <= i < |ids| ==> ids[i] < 0x1_0000_0000
    requires Holds(tlv, head) && start == |head| && tlv.Length >= start + 4 * |ids|
    modifies tlv
    ensures Holds(tlv, head + IdBytes(ids))
  {
    var count := 0;
    assert head + IdBytes(ids[..0]) == head;
    while count < |ids|
      invariant 0 <= count <= |ids|
      invariant Holds(tlv, head + IdBytes(ids[..count]))
    {
      ghost var done := head + IdBytes(ids[..count]);
      var next := Put(tlv, start + count * 4, Le32(ids[count]), done);
      assert ids[..count + 1][..count] == ids[..count];
      assert done + Le32(ids[count]) == head + IdBytes(ids[..count + 1]);
      count := count + 1;
    }
    assert ids[..|ids|] == ids;
  }

  /** A TLV of `size` bytes, its structure, and the adapters, in as much memory as they take. */
  method FillVfabric(attr: seq<byte>, ids: seq<nat>, size: nat) returns (memory: array<byte>)
    requires |attr| + 8 <= size < 0x1_0000_0000
    requires forall i :: 0 <= i < |ids| ==> ids[i] < 0x1_0000_0000
    ensures fresh(memory)
    ensures memory.Length == if 8 + |attr| + 4 * |ids| > size then 8 + |attr| + 4 * |ids| else size
    ensures Holds(memory, Le32(TLV_VFABRIC_ATTR) + Le32(size - 8) + attr + IdBytes(ids))
  {
    hide Holds, Le32;
    memory := new byte[if 8 + |attr| + 4 * |ids| > size then 8 + |attr| + 4 * |ids| else size](_ => 0);
    var head := Le32(TLV_VFABRIC_ATTR) + Le32(size - 8);
    HoldsNothing(memory);
    assert [] + head == head;
    var at := Put(memory, 0, head, []);
    at := Put(memory, at, attr, head);
    PopulateVadapterId(memory, 8 + |attr|, ids, head + attr);
  }

  /** One virtual fabric's TLV, as large as the adapter count in its structure says; the memory
      at it is what was allocated, and behind it what more adapters run over. The adapters come
      from a second query: if they are fewer, the end is left as it was. */
  method ProcessVfabric(layout: Layout, attr: seq<byte>, ids: seq<nat>) returns (memory: array<byte>, size: nat)
    requires layout.IsVfabric() && |attr| == layout.size
    requires |attr| + 4 * ChildCount(layout, attr) < 0x8000_0000
    requires forall i :: 0 <= i < |ids| ==> ids[i] < 0x1_0000_0000
    ensures fresh(memory) && size == 8 + |attr| + 4 * ChildCount(layout, attr) <= memory.Length
    ensures memory.Length == size <==> |ids| <= ChildCount(layout, attr)
    ensures Holds(memory, Le32(TLV_VFABRIC_ATTR) + Le32(size - 8) + attr + IdBytes(ids))
    ensures |ids| >= ChildCount(layout, attr) ==>
      var record := Record(attr, IdBytes(ids)[..4 * ChildCount(layout, attr)]);
      Fits(layout, record) && memory[..size] == RecordBytes(layout, record)
  {
    hide Holds, ChildCount, Le32, RecordBytes, Fits;
    size := layout.size + 8 + 4 * ChildCount(layout, attr);
    memory := FillVfabric(attr, ids, size);
    if |ids| >= ChildCount(layout, attr) {
      FilledIsRecord(layout, attr, IdBytes(ids), memory);
    }
  }

  lemma FilledIsRecord(layout: Layout, attr: seq<byte>, children: seq<byte>, memory: array<byte>)
    requires layout.IsVfabric() && |attr| == layout.size && |children| >= 4 * ChildCount(layout, attr)
    requires |attr| + 4 * ChildCount(layout, attr) < 0x8000_0000
    requires var n := 4 * ChildCount(layout, attr);
      Holds(memory, Le32(TLV_VFABRIC_ATTR) + Le32(layout.size + 8 + n - 8) + attr + children)
    ensures var n := 4 * ChildCount(layout, attr);
      && layout.size + 8 + n <= memory.Length && Fits(layout, Record(attr, children[..n]))
      && memory[..layout.size + 8 + n] == RecordBytes(layout, Record(attr, children[..n]))
  {
    hide Holds, ChildCount, Le32, RecordBytes, Fits;
    var n := 4 * ChildCount(layout, attr);
    AdaptersMakeRecord(layout, attr, children[..n]);
    HeldFront(memory, Le32(TLV_VFABRIC_ATTR) + Le32(layout.size + 8 + n - 8) + attr, children, n);
  }

  lemma HeldFront(buff: array<byte>, head: seq<byte>, rest: seq<byte>, n: nat)
    requires Holds(buff, head + rest) && n <= |rest|
    ensures |head| + n <= buff.Length && buff[..|head| + n] == head + rest[..n]
  {
    assert buff[..|head| + n] == buff[..|head + rest|][..|head| + n];
  }

  lemma AdaptersMakeRecord(layout: Layout, attr: seq<byte>, children: seq<byte>)
    requires layout.IsVfabric() && |attr| == layout.size && |children| == 4 * ChildCount(layout, attr)
    requires |attr| + |children| < 0x8000_0000
    ensures Fits(layout, Record(attr, children))
    ensures RecordBytes(layout, Record(attr, children))
         == Le32(TLV_VFABRIC_ATTR) + Le32(layout.size + 8 + 4 * ChildCount(layout, attr) - 8) + attr + children
  {
    hide Le32, ChildCount;
    var head := Le32(TLV_VFABRIC_ATTR) + Le32(|attr| + |children|);
    Associate(head, attr, children);
  }

  method CreateApiTlv(buff: array<byte>, at: nat, tag: nat, value: seq<byte>, ghost done: seq<byte>)
    returns (offset: nat)
    requires tag < 0x1_0000_0000 && |value| < 0x1_0000_0000
    requires Holds(buff, done) && at == |done| && at + 8 + |value| <= buff.Length
    modifies buff
    ensures Holds(buff, done + Tlv(tag, value)) && offset == |done| + 8 + |value|
  {
    offset := Put(buff, at, Le32(tag), done);
    offset := Put(buff, offset, Le32(|value|), done + Le32(tag));
    offset := Put(buff, offset, value, done + Le32(tag) + Le32(|value|));
    assert done + Le32(tag) + Le32(|value|) + value == done + Tlv(tag, value);
  }

  method MarshalBridges(layout: Layout, op: byte, reserved: seq<byte>, data: seq<byte>, ghost rs: seq<Record>)
    returns (pack: array<byte>)
    requires Sendable(layout, rs) && data == Counted(layout, rs) && |reserved| == 2
    ensures fresh(pack) && pack[..] == BridgeResponse(layout, op, reserved, rs)
  {
    var length := 8 + |data| + 4 + 8 * 2;
    pack := new byte[length](_ => 0);
    var header := Header(BRIDGE_DEVICE, op, reserved, length);
    var offset := Put(pack, 0, header, []);
    offset := CreateApiTlv(pack, offset, TLV_INT, Le32(|data|), header);
    offset := CreateApiTlv(pack, offset, TLV_BD_ATTR, data, header + Tlv(TLV_INT, Le32(|data|)));
    HoldsAll(pack, header + Tlv(TLV_INT, Le32(|data|)) + Tlv(TLV_BD_ATTR, data));
  }

  /** The server's list: one TLV to a record. */
  predicate AreTlvs(layout: Layout, tlvs: seq<seq<byte>>, rs: seq<Record>) {
    && |tlvs| == |rs| && layout.IsVfabric() && AllFit(layout, rs)
    && forall i :: 0 <= i < |rs| ==> tlvs[i] == RecordBytes(layout, rs[i])
  }

  /** How much to copy is read out of each TLV. */
  method VfmPackData(layout: Layout, buff: array<byte>, at: nat, tlvs: seq<seq<byte>>,
                     ghost done: seq<byte>, ghost rs: seq<Record>) returns (offset: nat)
    requires AreTlvs(layout, tlvs, rs) && Sendable(layout, rs)
    requires Holds(buff, done) && at == |done| && at + |Counted(layout, rs)| <= buff.Length
    modifies buff
    ensures Holds(buff, done + Counted(layout, rs)) && offset == |done + Counted(layout, rs)|
  {
    hide RecordBytes, Fits, Holds;
    offset := Put(buff, at, Le32(|tlvs|), done);
    var i := 0;
    ghost var head := done + Le32(|tlvs|);
    assert head + AllBytes(layout, rs[..0]) == head;
    while i < |tlvs|
      invariant 0 <= i <= |tlvs| && offset == |head + AllBytes(layout, rs[..i])|
      invariant Holds(buff, head + AllBytes(layout, rs[..i]))
    {
      AllBytesNext(layout, rs, i);
      TlvLength(layout, rs[i]);
      var size := FromLe32(tlvs[i][4..8]) + 8;
      ghost var sofar := head + AllBytes(layout, rs[..i]);
      offset := Put(buff, offset, tlvs[i][..size], sofar);
      assert sofar + tlvs[i][..size] == head + AllBytes(layout, rs[..i + 1]);
      i := i + 1;
    }
    assert rs[..|rs|] == rs;
    assert head + AllBytes(layout, rs) == done + Counted(layout, rs);
  }

  lemma TlvLength(layout: Layout, r: Record)
    requires layout.IsVfabric() && Fits(layout, r)
    ensures |RecordBytes(layout, r)| >= 8
    ensures FromLe32(RecordBytes(layout, r)[4..8]) + 8 == |RecordBytes(layout, r)|
  {
    var value := r.attr + r.children;
    Le32RoundTrip(|value|);
    assert Tlv(TLV_VFABRIC_ATTR, value)[4..8] == Le32(|value|);
  }

  method MarshalVfabrics(layout: Layout, reserved: seq<byte>, tlvs: seq<seq<byte>>, size: nat, ghost rs: seq<Record>)
    returns (pack: array<byte>)
    requires AreTlvs(layout, tlvs, rs) && Sendable(layout, rs) && |reserved| == 2
    requires size == |AllBytes(layout, rs)|
    ensures fresh(pack) && pack[..] == VfabricResponse(layout, reserved, rs)
  {
    var length := 8 + size + 4 + 8 * 0;
    pack := new byte[length](_ => 0);
    var header := Header(VFABRIC, QUERY_INVENTORY, reserved, length);
    var offset := Put(pack, 0, header, []);
    offset := VfmPackData(layout, pack, offset, tlvs, header, rs);
    HoldsAll(pack, header + Counted(layout, rs));
  }

  // ---- the client ----

  method GetApiTlv(buff: array<byte>, retPos: nat) returns (value: Option<seq<byte>>, next: nat)
    ensures value == TlvValue(buff[..], retPos)
    ensures value.Some? ==> next == retPos + 8 + |value.value|
  {
    value, next := None, retPos;
    if retPos + 8 <= buff.Length {
      assert buff[..][retPos + 4..retPos + 8] == buff[retPos + 4..retPos + 8];
      var length := FromLe32(buff[retPos + 4..retPos + 8]);
      if retPos + 8 + length <= buff.Length {
        assert buff[..][retPos + 8..retPos + 8 + length] == buff[retPos + 8..retPos + 8 + length];
        value, next := Some(buff[retPos + 8..retPos + 8 + length]), retPos + 8 + length;
      }
    }
  }

  /** The client's loop over the records. */
  method UnpackRecords(layout: Layout, buff: seq<byte>, at: nat) returns (result: Option<seq<Record>>)
    requires layout.Valid()
    ensures result == ReadCounted(layout, buff, at)
  {
    hide ReadRecord;
    if at + 4 > |buff| {
      return None;
    }
    var num: nat := FromLe32(buff[at..at + 4]);
    var temp: nat := at + 4;
    var records: seq<Record> := [];
    var i: nat := 0;
    NothingBehind(ReadCounted(layout, buff, at));
    while i < num
      invariant i <= num
      invariant ReadCounted(layout, buff, at) == Behind(records, ReadRecords(layout, buff, temp, num - i))
    {
      var next := UnpackRecord(layout, buff, temp);
      if next.None? {
        return None;
      }
      ghost var rest := ReadRecords(layout, buff, next.value.1, num - i - 1);
      BehindBehind(records, [next.value.0], rest);
      records := records + [next.value.0];
      temp := next.value.1;
      i := i + 1;
    }
    result := Some(records);
    assert records + [] == records;
  }

  lemma NothingBehind(rest: Option<seq<Record>>)
    ensures Behind([], rest) == rest
  {
    if rest.Some? {
      assert [] + rest.value == rest.value;
    }
  }

  lemma BehindBehind(a: seq<Record>, b: seq<Record>, rest: Option<seq<Record>>)
    ensures Behind(a, Behind(b, rest)) == Behind(a + b, rest)
  {
    if rest.Some? {
      assert a + (b + rest.value) == (a + b) + rest.value;
    }
  }

  method UnpackRecord(layout: Layout, buff: seq<byte>, at: nat) returns (next: Option<(Record, nat)>)
    requires layout.Valid()
    ensures next == ReadRecord(layout, buff, at)
  {
    var temp := at + layout.Prefix();
    if temp + layout.size > |buff| {
      return None;
    }
    var attr := buff[temp..temp + layout.size];
    temp := temp + layout.size;
    var size := ChildBytes(layout, attr);
    if temp + size > |buff| {
      return None;
    }
    next := Some((Record(attr, buff[temp..temp + size]), temp + size));
  }

  method UnmarshalBridges(layout: Layout, buff: array<byte>) returns (result: Option<seq<Record>>)
    requires layout.Valid()
    ensures result == ReadBridges(layout, buff[..])
  {
    if buff.Length < 8 {
      return None;
    }
    var head, retPos := GetApiTlv(buff, 8);
    if head.None? {
      return None;
    }
    var data := head;
    if buff[1] != QUERY {
      if buff[1] != QUERY_INVENTORY || buff[0] != BRIDGE_DEVICE || |head.value| != 4 {
        return None;
      }
      data, retPos := GetApiTlv(buff, retPos);
      if data.None? || |data.value| > FromLe32(head.value) {
        return None;
      }
    }
    result := UnpackRecords(layout, data.value, 0);
  }

  method UnmarshalVfabrics(layout: Layout, buff: array<byte>) returns (result: Option<seq<Record>>)
    requires layout.Valid()
    ensures result == ReadVfabrics(layout, buff[..])
  {
    if buff.Length < 8 || buff[1] != QUERY_INVENTORY || buff[0] != VFABRIC {
      return None;
    }
    result := UnpackRecords(layout, buff[..], 8);
  }
}

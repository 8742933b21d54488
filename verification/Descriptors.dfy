/** Descriptor lists: each descriptor is a type, a length in dwords and a value. */
module Descriptors {
  import opened Buffers
  import opened Bytes
  import opened Wrappers

  // ---- descriptors of any type ----

  datatype Tlv = Tlv(tag: byte, length: byte, value: seq<byte>) {
    /** The value fills the declared dwords. */
    predicate Valid() {
      length >= 1 && |value| == 4 * length as nat - 2
    }
  }

  function Encode(t: Tlv): (r: seq<byte>)
    requires t.Valid()
    ensures |r| == 4 * t.length as nat
  {
    [t.tag, t.length] + t.value
  }

  predicate AllValid(ts: seq<Tlv>) {
    forall i :: 0 <= i < |ts| ==> ts[i].Valid()
  }

  function EncodeAll(ts: seq<Tlv>): (r: seq<byte>)
    requires AllValid(ts)
  {
    if ts == [] then [] else Encode(ts[0]) + EncodeAll(ts[1..])
  }

  function Dwords(ts: seq<Tlv>): nat {
    if ts == [] then 0 else ts[0].length as nat + Dwords(ts[1..])
  }

  lemma {:induction false} DwordsFilled(ts: seq<Tlv>)
    requires AllValid(ts)
    ensures |EncodeAll(ts)| == 4 * Dwords(ts)
  {
    if ts != [] {
      DwordsFilled(ts[1..]);
    }
  }

  /** The descriptor at a position. None is a length of zero, which the source leaves open, or
      a read past the end. */
  function GetTlv(buff: seq<byte>, at: nat): (r: Option<Tlv>)
    ensures r.Some? ==> r.value.Valid()
  {
    if at + 2 > |buff| || buff[at + 1] == 0 || at + 4 * buff[at + 1] as nat > |buff| then None
    else Some(Tlv(buff[at], buff[at + 1], buff[at + 2..at + 4 * buff[at + 1] as nat]))
  }

  /** n descriptors in a row, each found by the length of the one before. */
  function Walk(buff: seq<byte>, at: nat, n: nat): Option<seq<Tlv>>
    decreases n
  {
    if n == 0 then Some([])
    else
      var t := GetTlv(buff, at);
      if t.None? then None
      else
        var rest := Walk(buff, at + 4 * t.value.length as nat, n - 1);
        if rest.None? then None else Some([t.value] + rest.value)
  }

  lemma GetEncoded(pre: seq<byte>, t: Tlv, post: seq<byte>)
    requires t.Valid()
    ensures GetTlv(pre + Encode(t) + post, |pre|) == Some(t)
  {
    var buff := pre + Encode(t) + post;
    assert buff[|pre|] == t.tag && buff[|pre| + 1] == t.length;
    assert buff[|pre| + 2..|pre| + 4 * t.length as nat] == t.value;
  }

  /** Given the memory behind the list as well, reading is the same function of more bytes; and
      what is read inside the list does not depend on what lies behind. */
  lemma TlvDoesNotSeeBehind(buff: seq<byte>, behind: seq<byte>, at: nat)
    requires GetTlv(buff, at).Some?
    ensures GetTlv(buff + behind, at) == GetTlv(buff, at)
  {
    var n := at + 4 * buff[at + 1] as nat;
    assert (buff + behind)[at + 2..n] == buff[at + 2..n];
  }

  lemma Regroup(pre: seq<byte>, a: seq<byte>, b: seq<byte>, post: seq<byte>)
    ensures pre + (a + b) + post == pre + a + (b + post) == (pre + a) + b + post
  {}

  /** The walk finds every list that was written, wherever it lies. */
  lemma {:induction false} WalkFindsAll(pre: seq<byte>, ts: seq<Tlv>, post: seq<byte>)
    requires AllValid(ts)
    ensures Walk(pre + EncodeAll(ts) + post, |pre|, |ts|) == Some(ts)
    decreases |ts|
  {
    hide GetTlv, Encode;
    if ts != [] {
      var rest := ts[1..];
      Regroup(pre, Encode(ts[0]), EncodeAll(rest), post);
      GetEncoded(pre, ts[0], EncodeAll(rest) + post);
      WalkFindsAll(pre + Encode(ts[0]), rest, post);
      assert ts == [ts[0]] + rest;
    }
  }

  method ReadTlv(buff: array<byte>, at: nat) returns (t: Option<Tlv>)
    ensures t == GetTlv(buff[..], at)
  {
    if at + 2 > buff.Length {
      return None;
    }
    var tag, length := buff[at], buff[at + 1];
    if length == 0 || at + 4 * length as nat > buff.Length {
      return None;
    }
    assert buff[..][at + 2..at + 4 * length as nat] == buff[at + 2..at + 4 * length as nat];
    t := Some(Tlv(tag, length, buff[at + 2..at + 4 * length as nat]));
  }

  // ---- what descriptors mean ----

  datatype Descriptor =
    | Priority(priority: byte)
    | Mac(mac: seq<byte>)
    | SwitchName(name: seq<byte>)
    | FabricName(name: seq<byte>)   // built without OPEN_FCOE
    | KeepAlive(period: nat)
  {
    predicate Valid() {
      match this
      case Priority(_) => true
      case Mac(mac) => |mac| == 6
      case SwitchName(name) => |name| == 8
      case FabricName(name) => |name| == 8
      case KeepAlive(period) => period < 0x1_0000_0000
    }

    function Tag(): byte {
      match this
      case Priority(_) => 1
      case Mac(_) => 2
      case SwitchName(_) => 4
      case FabricName(_) => 5
      case KeepAlive(_) => 12
    }

    function Length(): byte {
      match this
      case Priority(_) => 1
      case Mac(_) => 2
      case SwitchName(_) => 3
      case FabricName(_) => 3
      case KeepAlive(_) => 2
    }

    /** The data handed over to be filled in. The keep-alive period is kept in network order. */
    function Data(): seq<byte>
      requires Valid()
    {
      match this
      case Priority(p) => [p]
      case Mac(mac) => mac
      case SwitchName(name) => name
      case FabricName(name) => name
      case KeepAlive(period) => Be32(period)
    }
  }

  /** The descriptor's bytes: its data where it belongs, zeros elsewhere. */
  function Build(d: Descriptor): (t: Tlv)
    requires d.Valid()
    ensures t.Valid() && t.tag == d.Tag() && t.length == d.Length()
  {
    match d
    case Priority(p) => Tlv(1, 1, [0, p])
    case Mac(mac) => Tlv(2, 2, mac)
    case SwitchName(name) => Tlv(4, 3, [0, 0] + name)
    case FabricName(name) => Tlv(5, 3, [0, 0] + name)
    case KeepAlive(period) => Tlv(12, 2, [0, 0] + Be32(period))
  }

  /** What the receiver makes of a descriptor, by its type alone. None is a type it does not
      decode, or a value too short for the copy. */
  function GetTlvValue(t: Tlv): Option<Descriptor> {
    if t.tag == 1 && |t.value| >= 2 then Some(Priority(t.value[1]))
    else if t.tag == 2 && |t.value| >= 6 then Some(Mac(t.value[..6]))
    else if t.tag == 4 && |t.value| >= 10 then Some(SwitchName(t.value[2..10]))
    else if t.tag == 5 && |t.value| >= 10 then Some(FabricName(t.value[2..10]))
    else if t.tag == 12 && |t.value| >= 6 then Some(KeepAlive(FromBe32(t.value[2..6])))
    else None
  }

  lemma ValueRoundTrip(d: Descriptor)
    requires d.Valid()
    ensures GetTlvValue(Build(d)) == Some(d)
  {
    var value := Build(d).value;
    match d
    case Priority(_) =>
    case Mac(mac) => assert value[..6] == mac;
    case SwitchName(name) => assert value[2..10] == name;
    case FabricName(name) => assert value[2..10] == name;
    case KeepAlive(period) =>
      Be32RoundTrip(period);
      assert value[2..6] == Be32(period);
  }

  predicate AllWellFormed(ds: seq<Descriptor>) {
    forall i :: 0 <= i < |ds| ==> ds[i].Valid()
  }

  function BuildAll(ds: seq<Descriptor>): (r: seq<Tlv>)
    requires AllWellFormed(ds)
    ensures AllValid(r) && |r| == |ds|
  {
    seq(|ds|, i requires 0 <= i < |ds| => Build(ds[i]))
  }

  /** Every list of descriptors is read back, in order, with its values. */
  lemma DescriptorsRoundTrip(pre: seq<byte>, ds: seq<Descriptor>, post: seq<byte>)
    requires AllWellFormed(ds)
    ensures var walked := Walk(pre + EncodeAll(BuildAll(ds)) + post, |pre|, |ds|);
      && walked.Some? && |walked.value| == |ds|
      && forall i :: 0 <= i < |ds| ==> GetTlvValue(walked.value[i]) == Some(ds[i])
  {
    WalkFindsAll(pre, BuildAll(ds), post);
    forall i | 0 <= i < |ds| ensures GetTlvValue(BuildAll(ds)[i]) == Some(ds[i]) {
      ValueRoundTrip(ds[i]);
    }
  }

  // ---- filling a value in ----

  /** The size of a value, which is what is allocated for it. */
  function Room(length: byte): nat
    requires length >= 1
  {
    4 * length as nat - 2
  }

  /** How far inside the value the data goes. */
  function CopyAt(tag: byte, openFcoe: bool): nat {
    if tag == 2 || tag == 6 then 0
    else if tag == 1 then 1
    else if tag == 3 || (tag == 5 && openFcoe) then 3
    else 2
  }

  /** These types copy as many bytes as the value has, and not to its start. */
  predicate CopiesRoom(tag: byte, openFcoe: bool) {
    tag in {7, 13, 240, 241} || (tag == 5 && openFcoe)
  }

  function CopySize(tag: byte, openFcoe: bool, length: byte): nat
    requires length >= 1
  {
    if CopiesRoom(tag, openFcoe) then Room(length)
    else match tag
      case 1 => 1
      case 2 => 6
      case 3 => 3
      case 4 => 8
      case 5 => 8
      case 6 => 2
      case 12 => 4
      case 101 => 20
      case _ => 0
  }

  /** The least length at which the data of a type fits. */
  function FewestDwords(tag: byte): byte {
    match tag
    case 2 => 2
    case 3 => 2
    case 4 => 3
    case 5 => 3
    case 12 => 2
    case 101 => 6
    case _ => 1
  }

  /** The copy stays inside the allocated value exactly when the length is enough for the type,
      and never for the types that copy the whole room to a place behind its start. */
  lemma CopyStaysInsideIff(tag: byte, openFcoe: bool, length: byte)
    requires length >= 1
    ensures CopyAt(tag, openFcoe) + CopySize(tag, openFcoe, length) <= Room(length)
        <==> !CopiesRoom(tag, openFcoe) && length >= FewestDwords(tag)
  {}

  function Zeros(n: nat): (r: seq<byte>)
    ensures |r| == n && forall i :: 0 <= i < n ==> r[i] == 0
  {
    seq(n, _ => 0)
  }

  /** The value that goes out: the data in its place, cut off at the value's end, and zeros. */
  function FilledIn(tag: byte, openFcoe: bool, length: byte, data: seq<byte>): (r: seq<byte>)
    requires length >= 1 && |data| >= CopySize(tag, openFcoe, length)
    ensures |r| == Room(length)
  {
    (Zeros(CopyAt(tag, openFcoe)) + data[..CopySize(tag, openFcoe, length)] + Zeros(Room(length)))[..Room(length)]
  }

  /** The memory at the value: what was allocated, and behind it what the copy runs over. */
  method CreateTlv(tag: byte, openFcoe: bool, length: byte, data: seq<byte>) returns (memory: array<byte>)
    requires length >= 1 && |data| >= CopySize(tag, openFcoe, length)
    ensures fresh(memory) && memory.Length >= Room(length)
    ensures memory[..Room(length)] == FilledIn(tag, openFcoe, length, data)
    ensures memory.Length == Room(length) <==> CopyAt(tag, openFcoe) + CopySize(tag, openFcoe, length) <= Room(length)
  {
    var at, size := CopyAt(tag, openFcoe), CopySize(tag, openFcoe, length);
    memory := new byte[if at + size > Room(length) then at + size else Room(length)](_ => 0);
    forall i | 0 <= i < size {
      memory[at + i] := data[i];
    }
    assert memory[..Room(length)] == FilledIn(tag, openFcoe, length, data);
  }

  /** The descriptors built are the values filled in; what lies behind the data in memory is
      copied for some types and never sent. */
  lemma BuildIsFilledIn(d: Descriptor, openFcoe: bool)
    requires d.Valid() && !(d.FabricName? && openFcoe)
    ensures |d.Data()| == CopySize(d.Tag(), openFcoe, d.Length())
    ensures Build(d).value == FilledIn(d.Tag(), openFcoe, d.Length(), d.Data())
  {}

  // ---- descriptors that do not come back ----

  /** The FC map as a descriptor of its own: three bytes at the end of the value. */
  function FcMapTlv(fcMap: seq<byte>): (t: Tlv)
    requires |fcMap| == 3
    ensures t.Valid()
  {
    Tlv(3, 2, [0, 0, 0] + fcMap)
  }

  /** The receiver reads the first word of the value. */
  function ReadFcMap(t: Tlv): nat
    requires |t.value| >= 4
  {
    FromBe32(t.value[..4])
  }

  /** Sender and receiver disagree on where the map is: only the zero map comes back. */
  lemma FcMapComesBackIff(fcMap: seq<byte>)
    requires |fcMap| == 3
    ensures ReadFcMap(FcMapTlv(fcMap)) == FromBe24(fcMap) <==> fcMap == [0, 0, 0]
  {}

  // ---- the two advertisements ----

  /** The gateway's advertisement to hosts, as built with OPEN_FCOE or without. */
  datatype VhbaAdv = VhbaAdv(
    priority: byte, gwMac: seq<byte>, switchName: seq<byte>, fcMap: seq<byte>, fabricName: seq<byte>, period: nat)
  {
    predicate Valid() {
      && |gwMac| == 6 && |switchName| == 8 && |fcMap| == 3 && |fabricName| == 8
      && period < 0x1_0000_0000
    }
  }

  const ADVERTISED_DWORDS := 12

  /** The map and the fabric name in one descriptor. */
  function OpenFabricTlv(fcMap: seq<byte>, fabricName: seq<byte>): (t: Tlv)
    requires |fcMap| == 3 && |fabricName| == 8
    ensures t.Valid()
  {
    Tlv(5, 4, [0, 0, 0] + fcMap + fabricName)
  }

  function VhbaAdvertisement(adv: VhbaAdv, openFcoe: bool): (ts: seq<Tlv>)
    requires adv.Valid()
    ensures AllValid(ts)
  {
    [Build(Priority(adv.priority)), Build(Mac(adv.gwMac))]
    + (if openFcoe then [Build(SwitchName(adv.switchName)), OpenFabricTlv(adv.fcMap, adv.fabricName)]
       else [FcMapTlv(adv.fcMap), Build(SwitchName(adv.switchName)), Build(FabricName(adv.fabricName))])
    + [Build(KeepAlive(adv.period))]
  }

  /** The declared 12 dwords are what the OPEN_FCOE build writes; the other writes 13 into
      the same buffer. */
  lemma AdvertisementFillsDeclaredIff(adv: VhbaAdv, openFcoe: bool)
    requires adv.Valid()
    ensures |EncodeAll(VhbaAdvertisement(adv, openFcoe))| == 4 * ADVERTISED_DWORDS <==> openFcoe
    ensures !openFcoe ==> |EncodeAll(VhbaAdvertisement(adv, openFcoe))| == 4 * 13
  {
    var ts := VhbaAdvertisement(adv, openFcoe);
    DwordsFilled(ts);
    assert ts[0].length == 1 && ts[1].length == 2 && ts[|ts| - 1].length == 2;
    DwordsFrom(ts, 0);
    DwordsFrom(ts, 1);
    DwordsFrom(ts, 2);
    DwordsFrom(ts, 3);
    DwordsFrom(ts, 4);
    if !openFcoe {
      DwordsFrom(ts, 5);
    }
    assert ts[0..] == ts;
    assert Dwords(ts[|ts|..]) == 0;
  }

  lemma DwordsFrom(ts: seq<Tlv>, i: nat)
    requires i < |ts|
    ensures Dwords(ts[i..]) == ts[i].length as nat + Dwords(ts[i + 1..])
  {}

  lemma OpenFabricIsFilledIn(fcMap: seq<byte>, fabricName: seq<byte>, behind: seq<byte>)
    requires |fcMap| == 3 && |fabricName| == 8 && |behind| >= 3
    ensures OpenFabricTlv(fcMap, fabricName).value == FilledIn(5, true, 4, fcMap + fabricName + behind)
  {}

  lemma FcMapIsFilledIn(fcMap: seq<byte>, openFcoe: bool)
    requires |fcMap| == 3
    ensures FcMapTlv(fcMap).value == FilledIn(3, openFcoe, 2, fcMap)
  {}

  /** One descriptor through the moving offset: two bytes, then the value. */
  method PutTlv(buff: array<byte>, at: nat, tag: byte, openFcoe: bool, length: byte, data: seq<byte>,
                ghost ts: seq<Tlv>, ghost i: nat) returns (offset: nat)
    requires length >= 1 && |data| >= CopySize(tag, openFcoe, length)
    requires i < |ts| && AllValid(ts) && ts[i] == Tlv(tag, length, FilledIn(tag, openFcoe, length, data))
    requires Holds(buff, EncodeAll(ts[..i])) && at == |EncodeAll(ts[..i])|
    requires at + 4 * length as nat <= buff.Length
    modifies buff
    ensures Holds(buff, EncodeAll(ts[..i + 1])) && offset == |EncodeAll(ts[..i + 1])| == at + 4 * length as nat
  {
    hide FilledIn, CopySize, CopyAt;
    ghost var done := EncodeAll(ts[..i]);
    var memory := CreateTlv(tag, openFcoe, length, data);
    var value := memory[..Room(length)];
    offset := Put(buff, at, [tag, length], done);
    offset := Put(buff, offset, value, done + [tag, length]);
    EncodeNext(ts, i);
    assert done + [tag, length] + value == done + Encode(ts[i]);
  }

  lemma {:induction false} EncodeAppend(a: seq<Tlv>, b: seq<Tlv>)
    requires AllValid(a) && AllValid(b)
    ensures EncodeAll(a + b) == EncodeAll(a) + EncodeAll(b)
  {
    hide Encode;
    if a == [] {
      assert a + b == b;
    } else {
      assert (a + b)[1..] == a[1..] + b;
      EncodeAppend(a[1..], b);
    }
  }

  lemma EncodeNext(ts: seq<Tlv>, i: nat)
    requires i < |ts| && AllValid(ts)
    ensures EncodeAll(ts[..i + 1]) == EncodeAll(ts[..i]) + Encode(ts[i])
  {
    assert ts[..i + 1] == ts[..i] + [ts[i]];
    EncodeAppend(ts[..i], [ts[i]]);
    assert EncodeAll([ts[i]]) == Encode(ts[i]) + EncodeAll([]);
  }

  method PutDescriptor(buff: array<byte>, at: nat, d: Descriptor, openFcoe: bool, ghost ts: seq<Tlv>, ghost i: nat)
    returns (offset: nat)
    requires d.Valid() && !(d.FabricName? && openFcoe)
    requires i < |ts| && AllValid(ts) && ts[i] == Build(d)
    requires Holds(buff, EncodeAll(ts[..i])) && at == |EncodeAll(ts[..i])|
    requires at + 4 * d.Length() as nat <= buff.Length
    modifies buff
    ensures Holds(buff, EncodeAll(ts[..i + 1])) && offset == |EncodeAll(ts[..i + 1])| == at + 4 * d.Length() as nat
  {
    BuildIsFilledIn(d, openFcoe);
    offset := PutTlv(buff, at, d.Tag(), openFcoe, d.Length(), d.Data(), ts, i);
  }

  /** Either build, into a buffer that is large enough; `behind` is what lies behind the fabric's
      fields in memory. */
  method FcoeVhbaAdvertisement(adv: VhbaAdv, openFcoe: bool, behind: seq<byte>, msgDesc: array<byte>)
    requires adv.Valid() && |behind| >= 3
    requires msgDesc.Length >= |EncodeAll(VhbaAdvertisement(adv, openFcoe))|
    modifies msgDesc
    ensures Holds(msgDesc, EncodeAll(VhbaAdvertisement(adv, openFcoe)))
  {
    ghost var ts := VhbaAdvertisement(adv, openFcoe);
    AdvertisementFillsDeclaredIff(adv, openFcoe);
    assert ts[..0] == [] && ts[..|ts|] == ts;
    hide Holds, EncodeAll, Encode, FilledIn;
    assert Holds(msgDesc, EncodeAll(ts[..0])) by { HoldsNothing(msgDesc); EncodeNothing(); }
    EncodeNothing();
    var offset := PutDescriptor(msgDesc, 0, Priority(adv.priority), openFcoe, ts, 0);
    offset := PutDescriptor(msgDesc, offset, Mac(adv.gwMac), openFcoe, ts, 1);
    if openFcoe {
      OpenFabricIsFilledIn(adv.fcMap, adv.fabricName, behind);
      offset := PutDescriptor(msgDesc, offset, SwitchName(adv.switchName), openFcoe, ts, 2);
      offset := PutTlv(msgDesc, offset, 5, true, 4, adv.fcMap + adv.fabricName + behind, ts, 3);
      offset := PutDescriptor(msgDesc, offset, KeepAlive(adv.period), openFcoe, ts, 4);
    } else {
      FcMapIsFilledIn(adv.fcMap, false);
      offset := PutTlv(msgDesc, offset, 3, false, 2, adv.fcMap, ts, 2);
      offset := PutDescriptor(msgDesc, offset, SwitchName(adv.switchName), openFcoe, ts, 3);
      offset := PutDescriptor(msgDesc, offset, FabricName(adv.fabricName), openFcoe, ts, 4);
      offset := PutDescriptor(msgDesc, offset, KeepAlive(adv.period), openFcoe, ts, 5);
    }
  }

  lemma EncodeNothing()
    ensures EncodeAll([]) == []
  {}

  lemma EncodeFrom(ts: seq<Tlv>, i: nat)
    requires i < |ts| && AllValid(ts)
    ensures EncodeAll(ts[i..]) == Encode(ts[i]) + EncodeAll(ts[i + 1..])
  {}
}

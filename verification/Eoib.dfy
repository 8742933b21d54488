/** The Ethernet-over-InfiniBand advertisement, whose structures travel as they lie in memory. */
module Eoib {
  import opened Buffers
  import opened Bytes
  import opened Descriptors
  import opened Wrappers

  datatype GatewaySpec = GatewaySpec(vendorId: seq<byte>, qpn: nat, slPort: nat, lid: nat, guid: seq<byte>) {
    predicate Valid() {
      |vendorId| == 8 && qpn < 0x1_0000_0000 && slPort < 0x10000 && lid < 0x10000 && |guid| == 8
    }
  }

  datatype VlanSpec = VlanSpec(vendorId: seq<byte>, hBit: byte, reserved: byte, vlanNum: nat) {
    predicate Valid() {
      |vendorId| == 8 && vlanNum < 0x10000
    }
  }

  function GatewayMemory(g: GatewaySpec): (r: seq<byte>)
    requires g.Valid()
    ensures |r| == 24
  {
    g.vendorId + Le32(g.qpn) + Le16(g.slPort) + Le16(g.lid) + g.guid
  }

  function GatewayFrom(m: seq<byte>): (g: GatewaySpec)
    requires |m| == 24
    ensures g.Valid()
  {
    GatewaySpec(m[..8], FromLe32(m[8..12]), FromLe16(m[12..14]), FromLe16(m[14..16]), m[16..24])
  }

  /** Each field to the other byte order. */
  function Swapped(g: GatewaySpec): (r: GatewaySpec)
    requires g.Valid()
    ensures r.Valid()
  {
    g.(qpn := Swap32(g.qpn), slPort := Swap16(g.slPort), lid := Swap16(g.lid))
  }

  function VlanMemory(v: VlanSpec): (r: seq<byte>)
    requires v.Valid()
    ensures |r| == 12
  {
    v.vendorId + [v.hBit, v.reserved] + Le16(v.vlanNum)
  }

  function Advertisement(vendorId: seq<byte>, g: GatewaySpec, v: VlanSpec): (ts: seq<Tlv>)
    requires |vendorId| == 8 && g.Valid() && v.Valid()
    ensures AllValid(ts)
  {
    [Tlv(13, 3, [0, 0] + vendorId), Tlv(240, 7, [0, 0] + GatewayMemory(g)), Tlv(241, 4, [0, 0] + VlanMemory(v))]
  }

  /** The reader turns the gateway's fields to host order as it decodes the descriptor, and
      once more after that. */
  function ConxDiscovery(buff: seq<byte>): Option<(seq<byte>, GatewaySpec)> {
    var first := GetTlv(buff, 0);
    if first.None? || first.value.tag != 13 || |first.value.value| < 10 then None
    else
      var second := GetTlv(buff, 4 * first.value.length as nat);
      if second.None? || second.value.tag != 240 || |second.value.value| < 26 then None
      else Some((first.value.value[2..10], Swapped(Swapped(GatewayFrom(second.value.value[2..26])))))
  }

  lemma FiveFields(a: seq<byte>, b: seq<byte>, c: seq<byte>, d: seq<byte>, e: seq<byte>)
    requires |a| == 8 && |b| == 4 && |c| == 2 && |d| == 2 && |e| == 8
    ensures var m := a + b + c + d + e;
      m[..8] == a && m[8..12] == b && m[12..14] == c && m[14..16] == d && m[16..24] == e
  {}

  lemma GatewayRoundTrip(g: GatewaySpec)
    requires g.Valid()
    ensures GatewayFrom(GatewayMemory(g)) == g
  {
    hide Le32, FromLe32, Le16, FromLe16;
    FiveFields(g.vendorId, Le32(g.qpn), Le16(g.slPort), Le16(g.lid), g.guid);
    Le32RoundTrip(g.qpn);
    Le16RoundTrip(g.slPort);
    Le16RoundTrip(g.lid);
  }

  /** The advertisement fills exactly its 14 dwords, and what is read from it is what was
      sent. */
  lemma EoibRoundTrip(vendorId: seq<byte>, g: GatewaySpec, v: VlanSpec)
    requires |vendorId| == 8 && g.Valid() && v.Valid()
    ensures |EncodeAll(Advertisement(vendorId, g, v))| == 14 * 4
    ensures ConxDiscovery(EncodeAll(Advertisement(vendorId, g, v))) == Some((vendorId, g))
  {
    hide Encode, GetTlv, GatewayMemory, GatewayFrom;
    var ts := Advertisement(vendorId, g, v);
    var buff := EncodeAll(ts);
    EncodeFrom(ts, 0);
    EncodeFrom(ts, 1);
    EncodeFrom(ts, 2);
    assert ts[0..] == ts && EncodeAll(ts[3..]) == [];
    GetEncoded([], ts[0], EncodeAll(ts[1..]));
    assert [] + Encode(ts[0]) == Encode(ts[0]);
    GetEncoded(Encode(ts[0]), ts[1], EncodeAll(ts[2..]));
    assert Encode(ts[0]) + (Encode(ts[1]) + EncodeAll(ts[2..])) == Encode(ts[0]) + Encode(ts[1]) + EncodeAll(ts[2..]);
    assert ts[0].value[2..10] == vendorId && ts[1].value[2..26] == GatewayMemory(g);
    GatewayRoundTrip(g);
    SwapTwice(g.slPort, g.qpn);
    SwapTwice(g.lid, g.qpn);
  }

  /** Each structure goes out two bytes into its value, without what is copied from behind it. */
  lemma StructureIsFilledIn(tag: byte, length: byte, structure: seq<byte>, behind: seq<byte>, openFcoe: bool)
    requires tag == 13 || tag == 240 || tag == 241
    requires length >= 1 && |structure| == Room(length) - 2 && |behind| >= 2
    ensures FilledIn(tag, openFcoe, length, structure + behind) == [0, 0] + structure
  {}

  /** The three structures lie one behind the other in memory, then `behind`. */
  method EoibVnicAdvertisement(vendorId: seq<byte>, g: GatewaySpec, v: VlanSpec, openFcoe: bool, behind: seq<byte>,
                               msgDesc: array<byte>)
    requires |vendorId| == 8 && g.Valid() && v.Valid() && |behind| >= 2
    requires msgDesc.Length >= 14 * 4
    modifies msgDesc
    ensures Holds(msgDesc, EncodeAll(Advertisement(vendorId, g, v)))
  {
    ghost var ts := Advertisement(vendorId, g, v);
    assert ts[..0] == [] && ts[..3] == ts;
    hide Holds, EncodeAll, Encode, FilledIn, GatewayMemory, VlanMemory;
    EncodeNothing();
    HoldsNothing(msgDesc);
    var gateway, vlan := GatewayMemory(g), VlanMemory(v);
    StructureIsFilledIn(13, 3, vendorId, gateway, openFcoe);
    StructureIsFilledIn(240, 7, gateway, vlan, openFcoe);
    StructureIsFilledIn(241, 4, vlan, behind, openFcoe);
    var offset := PutTlv(msgDesc, 0, 13, openFcoe, 3, vendorId + gateway, ts, 0);
    offset := PutTlv(msgDesc, offset, 240, openFcoe, 7, gateway + vlan, ts, 1);
    offset := PutTlv(msgDesc, offset, 241, openFcoe, 4, vlan + behind, ts, 2);
  }
}

/** The bytes of a login: turning a host's FLOGI into the fabric's FDISC, and the fabric's
    reply into the host's response. */
module LoginFrames {
  import opened Bytes
  import opened Descriptors
  import opened RequestMap
  import opened Wrappers
  import Fip = FipFrames

  const FLOGI_BYTES := 140
  const REJECT_BYTES := 32
  const LS_COMMAND := 24
  const OXID := 16

  const LS_RJT: byte := 0x01
  const LS_ACC: byte := 0x02
  const FDISC: byte := 0x51

  const FC_MAP: seq<byte> := [0x0e, 0xfc, 0x00]

  /** What the table remembers of a request. The identifier is kept as its two raw bytes. */
  datatype Entry = Entry(oxid: seq<byte>, mac: seq<byte>, ctrlFlags: nat, vhbaMac: seq<byte>, flag: nat)

  const FROM_HOST := 0
  const FROM_VFM := 1

  /** The frame with its exchange identifier replaced. */
  function WithOxid(frame: seq<byte>, oxid: seq<byte>): (r: seq<byte>)
    requires |frame| >= OXID + 2 && |oxid| == 2
    ensures |r| == |frame|
  {
    frame[..OXID] + oxid + frame[OXID + 2..]
  }

  function OxidBytes(frame: seq<byte>): (r: seq<byte>)
    requires |frame| >= OXID + 2
    ensures |r| == 2
  {
    frame[OXID..OXID + 2]
  }

  function OxidOf(frame: seq<byte>): nat
    requires |frame| >= OXID + 2
  {
    FromBe16(OxidBytes(frame))
  }

  /** The destination address: the low three bytes of the first word. */
  function DestBytes(frame: seq<byte>): (r: seq<byte>)
    requires |frame| >= LS_COMMAND
    ensures |r| == 3
  {
    frame[1..4]
  }

  /** The source address: the low three bytes of the second word. */
  function SourceBytes(frame: seq<byte>): (r: seq<byte>)
    requires |frame| >= LS_COMMAND
    ensures |r| == 3
  {
    frame[5..8]
  }

  const LOGIN_SERVER := 0xfffffe

  /** The two guards before the table: a frame to the manager's own fabric address is taken
      for a request from the fabric, and only the fabric's login server answers logins. */
  predicate PastTable(gatewayId: nat, frame: seq<byte>)
    requires |frame| >= LS_COMMAND
  {
    FromBe24(DestBytes(frame)) == gatewayId || FromBe24(SourceBytes(frame)) != LOGIN_SERVER
  }

  function FdiscFrame(flogi: seq<byte>, generated: nat): (r: seq<byte>)
    requires |flogi| == FLOGI_BYTES && generated < LEN
    ensures |r| == FLOGI_BYTES
  {
    WithOxid(flogi[LS_COMMAND := FDISC], Be16(generated))
  }

  /** Reading back the identifier the frame was given. */
  lemma GeneratedOxid(flogi: seq<byte>, generated: nat)
    requires |flogi| == FLOGI_BYTES && generated < LEN
    ensures OxidOf(FdiscFrame(flogi, generated)) == generated
    ensures OxidOf(WithOxid(flogi, Be16(generated))) == generated
  {}

  /** The fabric's frame is the host's but for the command and the identifier. */
  lemma FdiscChangesThreeBytes(flogi: seq<byte>, generated: nat)
    requires |flogi| == FLOGI_BYTES && generated < LEN
    ensures var f := FdiscFrame(flogi, generated);
      && f[LS_COMMAND] == 0x51 && f[OXID..OXID + 2] == Be16(generated)
      && forall k :: 0 <= k < FLOGI_BYTES && k !in {LS_COMMAND, OXID, OXID + 1} ==> f[k] == flogi[k]
  {}

  /** How much of the reply goes into the response. */
  function CopyLength(accept: bool): nat {
    if accept then FLOGI_BYTES else REJECT_BYTES
  }

  /** The response's descriptors: the reply under the host's own identifier, then the
      address the host is to use, made of the FC map and the assigned FC identifier. */
  function ResponseDesc(reply: seq<byte>, oxid: seq<byte>, accept: bool): (r: seq<byte>)
    requires |reply| >= CopyLength(accept) && |oxid| == 2
    ensures |r| == if accept then 38 * 4 else 11 * 4
  {
    [7, if accept then 36 else 9, 0, 0] + WithOxid(reply, oxid)[..CopyLength(accept)]
    + [2, 2] + FC_MAP + DestBytes(reply)
  }

  /** flags | 1 */
  function SetF(flags: nat): (r: nat)
    ensures r % 2 == 1 && r / 2 == flags / 2
  {
    if flags % 2 == 0 then flags + 1 else flags
  }

  /** The second half of a rejection's header, as the request's goes back out: sequence count
      and parameter in host order. */
  function RejectExchange(f: seq<byte>): (r: seq<byte>)
    requires |f| >= LS_COMMAND
    ensures |r| == 12
  {
    [f[12], f[13], f[15], f[14], f[16], f[17], f[18], f[19], f[23], f[22], f[21], f[20]]
  }

  /** The rejection sent back to a fabric that asks something of the manager: addresses turned
      round, the exchange kept. */
  function RejectFrame(frame: seq<byte>): (r: seq<byte>)
    requires |frame| >= LS_COMMAND
    ensures |r| == REJECT_BYTES
  {
    [0x23] + SourceBytes(frame) + [0] + DestBytes(frame) + [0x01, 0x99, 0, 0] + RejectExchange(frame)
    + [LS_RJT, 0, 0, 0, 0, 0xff, 9, 0]
  }

  lemma SevenParts(a: seq<byte>, b: seq<byte>, c: seq<byte>, d: seq<byte>, e: seq<byte>, f: seq<byte>, g: seq<byte>)
    requires |a| == 1 && |b| == 3 && |c| == 1 && |d| == 3 && |e| == 4 && |f| == 12 && |g| == 8
    ensures var s := a + b + c + d + e + f + g;
      s[1..4] == b && s[5..8] == d && s[12..24] == f && s[16..18] == f[4..6] && s[24] == g[0]
  {}

  /** The rejection goes to whoever sent the request, in its exchange; its header's other fields
      are the request's own exactly when they read the same both ways round. */
  lemma RejectGoesBack(frame: seq<byte>)
    requires |frame| >= LS_COMMAND
    ensures var r := RejectFrame(frame);
      && DestBytes(r) == SourceBytes(frame) && SourceBytes(r) == DestBytes(frame)
      && OxidBytes(r) == OxidBytes(frame) && r[LS_COMMAND] == LS_RJT
      && (r[12..24] == frame[12..24] <==>
            frame[14] == frame[15] && frame[20] == frame[23] && frame[21] == frame[22])
  {
    SevenParts([0x23], SourceBytes(frame), [0], DestBytes(frame), [0x01, 0x99, 0, 0], RejectExchange(frame),
               [LS_RJT, 0, 0, 0, 0, 0xff, 9, 0]);
    ExchangeTurned(frame);
  }

  lemma ExchangeTurned(f: seq<byte>)
    requires |f| >= LS_COMMAND
    ensures RejectExchange(f)[4..6] == OxidBytes(f)
    ensures RejectExchange(f) == f[12..24] <==> f[14] == f[15] && f[20] == f[23] && f[21] == f[22]
  {
    assert f[12..24] == [f[12], f[13], f[14], f[15], f[16], f[17], f[18], f[19], f[20], f[21], f[22], f[23]];
    TurnedRoundIff(f[12], f[13], f[14], f[15], f[16], f[17], f[18], f[19], f[20], f[21], f[22], f[23]);
  }

  lemma TurnedRoundIff(a: byte, b: byte, c: byte, d: byte, e: byte, f: byte, g: byte, h: byte,
                       i: byte, j: byte, k: byte, l: byte)
    ensures [a, b, d, c, e, f, g, h, l, k, j, i] == [a, b, c, d, e, f, g, h, i, j, k, l]
        <==> c == d && i == l && j == k
  {
    var s := [a, b, c, d, e, f, g, h, i, j, k, l];
    assert s[2] == c && s[3] == d && s[8] == i && s[9] == j && s[10] == k && s[11] == l;
  }

  // ---- the headers in front ----

  const VPSYSTEM: seq<byte> := [0x76, 0x70, 0x73, 0x79, 0x73, 0x74, 0x65, 0x6d]

  /** The tunnel header as it goes to the fabric: the external flag set, and the name copied
      with the zero behind it, which lands in the next field. */
  function External(t: Fip.TunnelHdr): (r: Fip.TunnelHdr)
    ensures r.port >= 0x80 && r.port % 0x80 == t.port % 0x80
    ensures t.Valid() ==> r.Valid()
  {
    t.(port := if t.port < 0x80 then t.port + 0x80 else t.port, vendor := VPSYSTEM, group := 0)
  }

  /** The tunnel header of a response: internal. */
  const INTERNAL := Fip.TunnelHdr(0, [0, 0], VPSYSTEM, 0, 0, [0, 0], 0, 0)

  const MELLANOX: seq<byte> := [0x6d, 0x65, 0x6c, 0x6c, 0x61, 0x6e, 0x6f, 0x78]

  /** The tunnel header of a rejection: external. */
  const REJECTING := Fip.TunnelHdr(0, [0, 0], MELLANOX, 0, 0x80, [0, 0], 0, 0)

  /** The fabric finds the rejection, whole, behind a tunnel header that says external. */
  lemma RejectCrossesTheWire(dst: seq<byte>, src: seq<byte>, frame: seq<byte>)
    requires |dst| == 6 && |src| == 6 && |frame| >= LS_COMMAND
    ensures var sent := Fip.FcFrame(dst, src, REJECTING, RejectFrame(frame));
            var out := Fip.Process(sent);
      out.FabricFrame? && sent[out.at..] == RejectFrame(frame)
  {
    Fip.FcFrameReadsBack(dst, src, REJECTING, RejectFrame(frame));
  }

  function ResponseCtrl(flags: nat, accept: bool): Fip.CtrlHdr {
    Fip.CtrlHdr(2, 0, 2, if accept then 38 else 11, SetF(flags))
  }

  /** The fabric finds the request, whole, behind a tunnel header that says external. */
  lemma FdiscCrossesTheWire(dst: seq<byte>, src: seq<byte>, t: Fip.TunnelHdr, flogi: seq<byte>, generated: nat)
    requires |dst| == 6 && |src| == 6 && t.Valid() && |flogi| == FLOGI_BYTES && generated < LEN
    ensures var sent := Fip.FcFrame(dst, src, External(t), FdiscFrame(flogi, generated));
            var out := Fip.Process(sent);
      out.FabricFrame? && sent[out.at..] == FdiscFrame(flogi, generated)
  {
    Fip.FcFrameReadsBack(dst, src, External(t), FdiscFrame(flogi, generated));
  }

  /** The response's two descriptors: the frame, of which the last two bytes in memory are not
      sent, and the address. */
  function ResponseTlvs(reply: seq<byte>, oxid: seq<byte>, accept: bool): (ts: seq<Tlv>)
    requires |reply| >= CopyLength(accept) && |oxid| == 2
    ensures AllValid(ts) && |ts| == 2
  {
    [Tlv(7, if accept then 36 else 9, [0, 0] + WithOxid(reply, oxid)[..CopyLength(accept)]),
     Build(Mac(FC_MAP + DestBytes(reply)))]
  }

  lemma ResponseIsDescriptors(reply: seq<byte>, oxid: seq<byte>, accept: bool)
    requires |reply| >= CopyLength(accept) && |oxid| == 2
    ensures EncodeAll(ResponseTlvs(reply, oxid, accept)) == ResponseDesc(reply, oxid, accept)
  {
    var ts := ResponseTlvs(reply, oxid, accept);
    EncodeFrom(ts, 0);
    EncodeFrom(ts, 1);
    assert ts[0..] == ts && EncodeAll(ts[2..]) == [];
    var f, address := WithOxid(reply, oxid)[..CopyLength(accept)], FC_MAP + DestBytes(reply);
    var n: byte := if accept then 36 else 9;
    assert Encode(ts[0]) == [7, n] + ([0, 0] + f) == [7, n, 0, 0] + f;
    assert Encode(ts[1]) == [2, 2] + address;
    assert [7, n, 0, 0] + f + ([2, 2] + address) == [7, n, 0, 0] + f + [2, 2] + FC_MAP + DestBytes(reply);
  }

  /** The host, reading the response packet, finds it addressed to itself, its control header,
      the fabric's reply under its own identifier, and the address it is to use. */
  lemma ResponseCrossesTheWire(p: Fip.Packet, e: Entry, reply: seq<byte>, accept: bool)
    requires p.Valid() && |e.oxid| == 2 && |reply| >= CopyLength(accept) && p.vlan == Fip.NO_VLAN
    requires p.innerDst == e.mac && p.tunnel == INTERNAL && p.ctrl == ResponseCtrl(e.ctrlFlags, accept)
    requires p.desc == ResponseDesc(reply, e.oxid, accept)
    ensures var out := Fip.Process(Fip.Frame(p));
      && out.Control? && out.inner.dst == e.mac && out.ctrl == p.ctrl
      && Walk(Fip.Frame(p), out.at, 2) == Some(ResponseTlvs(reply, e.oxid, accept))
      && GetTlvValue(ResponseTlvs(reply, e.oxid, accept)[1]) == Some(Mac(FC_MAP + DestBytes(reply)))
  {
    hide Fip.Frame, Fip.Process, ResponseTlvs, ResponseDesc;
    Fip.FrameReadsBack(p);
    Fip.FrameAroundDescriptors(p);
    ResponseIsDescriptors(reply, e.oxid, accept);
    WalkFindsAll(Fip.Frame(p)[..Fip.DescAt(p)], ResponseTlvs(reply, e.oxid, accept), [0, 0, 0, 0]);
    AddressReads(reply, e.oxid, accept);
  }

  lemma AddressReads(reply: seq<byte>, oxid: seq<byte>, accept: bool)
    requires |reply| >= CopyLength(accept) && |oxid| == 2
    ensures GetTlvValue(ResponseTlvs(reply, oxid, accept)[1]) == Some(Mac(FC_MAP + DestBytes(reply)))
  {
    ValueRoundTrip(Mac(FC_MAP + DestBytes(reply)));
  }

  // ---- the operations on their buffers ----

  /** desc holds the FLOGI descriptor (4 bytes and the frame) and the address descriptor. */
  const FLOGI_DESC_BYTES := 4 + FLOGI_BYTES + 2 + 6

  function FlogiEntry(desc: seq<byte>, mac: seq<byte>, flags: nat): Entry
    requires |desc| >= FLOGI_DESC_BYTES
  {
    Entry(OxidBytes(desc[4..4 + FLOGI_BYTES]), mac, flags,
          desc[4 + FLOGI_BYTES + 2..FLOGI_DESC_BYTES], FROM_HOST)
  }

  method CreatePacketEx(table: RequestTable<Entry>, tunnel: Fip.TunnelHdr, desc: seq<byte>, mac: seq<byte>, flags: nat)
    returns (payload: array<byte>, sent: Fip.TunnelHdr)
    requires table.Valid() && |desc| >= FLOGI_DESC_BYTES
    modifies table`hint, table.slots
    ensures table.Valid() && fresh(payload)
    ensures table.State() == Added(old(table.State()), FlogiEntry(desc, mac, flags))
    ensures payload[..] == FdiscFrame(desc[4..4 + FLOGI_BYTES], Pick(old(table.State())))
    ensures sent == External(tunnel)
  {
    sent := External(tunnel);
    ghost var flogi := desc[4..4 + FLOGI_BYTES];
    payload := new byte[FLOGI_BYTES](i requires 0 <= i < FLOGI_BYTES => desc[4 + i]);
    assert payload[..] == flogi;
    payload[LS_COMMAND] := FDISC;
    assert payload[OXID..OXID + 2] == OxidBytes(flogi);
    var entry := Entry(payload[OXID..OXID + 2], mac, flags,
                       desc[4 + FLOGI_BYTES + 2..FLOGI_DESC_BYTES], FROM_HOST);
    var index := table.AddEntry(entry);
    payload[OXID], payload[OXID + 1] := index / 256, index % 256;
    assert payload[..] == FdiscFrame(flogi, index);
  }

  /** Answers the host; the identifier is put back in place in the received buffer. */
  method PrepareFdiscRes(buff: array<byte>, at: nat, entry: Entry, accept: bool)
    returns (mac: seq<byte>, ctrl: Fip.CtrlHdr, tunnel: Fip.TunnelHdr, desc: seq<byte>)
    requires at + CopyLength(accept) <= buff.Length && |entry.oxid| == 2
    modifies buff
    ensures buff[..] == old(buff[..at]) + WithOxid(old(buff[at..]), entry.oxid)
    ensures mac == entry.mac && ctrl == ResponseCtrl(entry.ctrlFlags, accept) && tunnel == INTERNAL
    ensures desc == ResponseDesc(old(buff[at..]), entry.oxid, accept)
  {
    ghost var reply := buff[at..];
    buff[at + OXID], buff[at + OXID + 1] := entry.oxid[0], entry.oxid[1];
    assert buff[at..] == WithOxid(reply, entry.oxid);
    var length := if accept then 38 else 11;
    mac, tunnel := entry.mac, INTERNAL;
    ctrl := Fip.CtrlHdr(2, 0, 2, length, SetF(entry.ctrlFlags));
    desc := [7, length - 2, 0, 0];
    desc := desc + buff[at..at + (length - 2) * 4 - 4];
    assert buff[at..at + (length - 2) * 4 - 4] == WithOxid(reply, entry.oxid)[..CopyLength(accept)];
    desc := desc + [2, 2] + FC_MAP;
    assert buff[at + 1..at + 4] == DestBytes(reply);
    desc := desc + buff[at + 1..at + 4];
  }

  /** Frame is the received FC frame; its header is rebuilt in front of the eight bytes of the
      rejection. */
  method CreateRejectEls(frame: seq<byte>) returns (msgDesc: array<byte>, tunnel: Fip.TunnelHdr)
    requires |frame| >= LS_COMMAND
    ensures tunnel == REJECTING
    ensures fresh(msgDesc) && msgDesc[..] == RejectFrame(frame)
  {
    tunnel := Fip.TunnelHdr(0, [0, 0], MELLANOX, 0, 0x80, [0, 0], 0, 0);
    msgDesc := new byte[8 * 4](_ => 0);
    var header := [0x23] + frame[5..8] + [0] + frame[1..4] + [0x01, 0x99, 0, 0] + RejectExchange(frame);
    forall k | 0 <= k < 24 {
      msgDesc[k] := header[k];
    }
    msgDesc[24] := 0x01;
    msgDesc[29] := 0xff;
    msgDesc[30] := 0x09;
    assert msgDesc[..24] == header && msgDesc[24..] == [LS_RJT, 0, 0, 0, 0, 0xff, 9, 0];
    assert msgDesc[..] == msgDesc[..24] + msgDesc[24..];
  }
}

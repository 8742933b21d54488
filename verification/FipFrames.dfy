/** The tunnelled control frames: how they are built, and what the reader of received packets
    makes of them. */
module FipFrames {
  import opened Buffers
  import opened Bytes
  import opened Descriptors
  import opened Wrappers

  const FIP_ETH_TYPE := 0x8914
  const FCOE_ETH_TYPE := 0x8906
  const TUNNEL: byte := 244
  const FIP_VERSION := 1
  const MAX_PK_LEN := 1500

  datatype EthHdr = EthHdr(dst: seq<byte>, src: seq<byte>, vlan: seq<byte>, etherType: nat, version: nat)

  /** `gwId` and `vfmId` as numbers of the host. */
  datatype TunnelHdr = TunnelHdr(
    length: byte, reserved1: seq<byte>, vendor: seq<byte>, group: byte, port: byte, reserved2: seq<byte>,
    gwId: nat, vfmId: nat)
  {
    predicate Valid() {
      |reserved1| == 2 && |vendor| == 8 && |reserved2| == 2 && gwId < 0x1_0000_0000 && vfmId < 0x1_0000_0000
    }
  }

  datatype CtrlHdr = CtrlHdr(opcode: nat, reserved: byte, subcode: byte, listLength: nat, flags: nat) {
    predicate Valid() {
      opcode < 0x10000 && listLength < 0x10000 && flags < 0x10000
    }
  }

  const NO_VLAN: seq<byte> := [0, 0, 0, 0]

  // ---- what is sent ----

  /** A zero tag is left out. */
  function EthBytes(dst: seq<byte>, src: seq<byte>, vlan: seq<byte>): (r: seq<byte>)
    requires |dst| == 6 && |src| == 6 && |vlan| == 4
    ensures |r| == if vlan == NO_VLAN then 16 else 20
  {
    dst + src + (if vlan == NO_VLAN then [] else vlan) + [0x89, 0x14, 0x10, 0]
  }

  /** The structure as it lies in memory: the two identifiers in the host's own order. */
  function TunnelBytes(t: TunnelHdr): (r: seq<byte>)
    requires t.Valid()
    ensures |r| == 24
  {
    [TUNNEL, t.length] + t.reserved1 + t.vendor + [t.group, t.port] + t.reserved2 + Le32(t.gwId) + Le32(t.vfmId)
  }

  function CtrlBytes(c: CtrlHdr): (r: seq<byte>)
    requires c.Valid()
    ensures |r| == 8
  {
    Be16(c.opcode) + [c.reserved, c.subcode] + Be16(c.listLength) + Be16(c.flags)
  }

  /** A frame's length in dwords from the tunnel header to the end of its descriptors, in one
      byte. */
  function TunnelLength(listLength: nat): byte {
    (24 + 16 + 8 + 4 * listLength) / 4 % 256
  }

  /** Everything that goes into a frame. Both Ethernet headers get the same tag. */
  datatype Packet = Packet(
    dst: seq<byte>, src: seq<byte>, innerDst: seq<byte>, innerSrc: seq<byte>, vlan: seq<byte>,
    tunnel: TunnelHdr, ctrl: CtrlHdr, desc: seq<byte>)
  {
    predicate Valid() {
      && |dst| == 6 && |src| == 6 && |innerDst| == 6 && |innerSrc| == 6 && |vlan| == 4
      && tunnel.Valid() && ctrl.Valid() && |desc| == 4 * ctrl.listLength
    }

    function SentTunnel(): TunnelHdr {
      tunnel.(length := TunnelLength(ctrl.listLength))
    }
  }

  function Frame(p: Packet): seq<byte>
    requires p.Valid()
  {
    EthBytes(p.dst, p.src, p.vlan) + TunnelBytes(p.SentTunnel()) + EthBytes(p.innerDst, p.innerSrc, p.vlan)
    + CtrlBytes(p.ctrl) + p.desc + [0, 0, 0, 0]
  }

  // ---- what is made of a received packet ----

  /** Whether a header carries a tag is decided at the front of the packet, for the inner
      header too. Reading needs the 20 bytes of a tagged header either way. */
  function ReadEthHdr(buff: seq<byte>, at: nat): Option<(EthHdr, nat)> {
    if at + 20 > |buff| then None
    else if buff[12] == 0x81 && buff[13] == 0 then
      Some((EthHdr(buff[at..at + 6], buff[at + 6..at + 12], buff[at + 12..at + 16],
                   FromBe16(buff[at + 16..at + 18]), buff[at + 18] as nat / 16), at + 20))
    else
      Some((EthHdr(buff[at..at + 6], buff[at + 6..at + 12], NO_VLAN,
                   FromBe16(buff[at + 12..at + 14]), buff[at + 14] as nat / 16), at + 16))
  }

  function ReadTunnelHdr(buff: seq<byte>, at: nat): (t: TunnelHdr)
    requires at + 24 <= |buff|
    ensures t.Valid()
  {
    var h := buff[at..at + 24];
    TunnelHdr(h[1], h[2..4], h[4..12], h[12], h[13], h[14..16], FromBe24(h[17..20]), FromBe24(h[21..24]))
  }

  function ReadCtrlHdr(buff: seq<byte>, at: nat): (c: CtrlHdr)
    requires at + 8 <= |buff|
    ensures c.Valid()
  {
    CtrlHdr(FromBe16(buff[at..at + 2]), buff[at + 2], buff[at + 3], FromBe16(buff[at + 4..at + 6]),
            FromBe16(buff[at + 6..at + 8]))
  }

  datatype Outcome =
    | Ignored
    | Incomplete
    | FabricFrame(tunnel: TunnelHdr, at: nat)
    | ElsRequest(tunnel: TunnelHdr, inner: EthHdr, at: nat)
    | Control(tunnel: TunnelHdr, inner: EthHdr, ctrl: CtrlHdr, at: nat)   // descriptors start at `at`

  function Process(buff: seq<byte>): Outcome {
    var outer := ReadEthHdr(buff, 0);
    if outer.None? then Ignored
    else
      var at := outer.value.1;
      if at + 24 > |buff| then Incomplete
      else if buff[at] != TUNNEL then Ignored
      else ProcessTunnelled(buff, ReadTunnelHdr(buff, at), at + 24)
  }

  function ProcessTunnelled(buff: seq<byte>, tunnel: TunnelHdr, at: nat): Outcome {
    if tunnel.port >= 0x80 then FabricFrame(tunnel, at)
    else
      var inner := ReadEthHdr(buff, at);
      if inner.None? then Ignored
      else if inner.value.0.etherType == FCOE_ETH_TYPE then ElsRequest(tunnel, inner.value.0, inner.value.1)
      else if inner.value.1 + 8 > |buff| then Incomplete
      else
        var ctrl := ReadCtrlHdr(buff, inner.value.1);
        if inner.value.1 + 8 + 4 * ctrl.listLength > |buff| then Incomplete
        else Control(tunnel, inner.value.0, ctrl, inner.value.1 + 8)
  }

  // ---- the pieces read back ----

  /** What the two identifiers become on the way: bytes reversed, the top one masked off. */
  function Crossed(id: nat): (r: nat)
    requires id < 0x1_0000_0000
    ensures r < 0x1000000
  {
    Swap32(id) % 0x1000000
  }

  lemma CrossedBytes(id: nat)
    requires id < 0x1_0000_0000
    ensures FromBe24(Le32(id)[1..4]) == Crossed(id)
  {
    hide Le32;
    var b := Le32(id);
    assert b[..2] == [b[0], b[1]] && b[2..] == [b[2], b[3]] && b[1..4] == [b[1], b[2], b[3]];
    TopByteOff(b[0], FromBe24(b[1..4]));
  }

  lemma TopByteOff(top: nat, low: nat)
    requires low < 0x1000000
    ensures (top * 0x1000000 + low) % 0x1000000 == low
  {}

  /** The sender leaves the identifiers in host order and the receiver reads network order,
      so an identifier comes back exactly when it is the same both ways round. */
  lemma IdComesBackIff(id: nat)
    requires id < 0x1_0000_0000
    ensures Crossed(id) == id <==> id % 0x10100 == 0 && id < 0x1000000
  {
    var b := Le32(id);
    CrossedBytes(id);
    Le32RoundTrip(id);
    assert b[1..4] == [b[1], b[2], b[3]];
    CrossedIsId(b[0], b[1], b[2], b[3]);
  }

  lemma CrossedIsId(b0: nat, b1: nat, b2: nat, b3: nat)
    requires b0 < 256 && b1 < 256 && b2 < 256 && b3 < 256
    ensures var id := b0 + b1 * 256 + b2 * 0x10000 + b3 * 0x1000000;
      b1 * 0x10000 + b2 * 256 + b3 == id <==> id % 0x10100 == 0 && id < 0x1000000
  {
    var id := b0 + b1 * 256 + b2 * 0x10000 + b3 * 0x1000000;
    if b1 * 0x10000 + b2 * 256 + b3 == id {
      assert b3 == 0 && b0 == 0 && b1 == b2;
    }
    if id % 0x10100 == 0 && id < 0x1000000 {
      var q := id / 0x10100;
      assert id == q * 0x10100 == q * 0x10000 + q * 256 && q < 256;
    }
  }

  lemma TunnelReads(pre: seq<byte>, t: TunnelHdr, post: seq<byte>)
    requires t.Valid()
    ensures var buff := pre + TunnelBytes(t) + post;
      && buff[|pre|] == TUNNEL
      && ReadTunnelHdr(buff, |pre|) == t.(gwId := Crossed(t.gwId), vfmId := Crossed(t.vfmId))
  {
    hide Crossed, Le32;
    var b := TunnelBytes(t);
    assert (pre + b + post)[|pre|..|pre| + 24] == b;
    assert b[2..4] == t.reserved1 && b[4..12] == t.vendor && b[14..16] == t.reserved2;
    assert b[16..20] == Le32(t.gwId) && b[20..24] == Le32(t.vfmId);
    assert b[17..20] == b[16..20][1..4] && b[21..24] == b[20..24][1..4];
    CrossedBytes(t.gwId);
    CrossedBytes(t.vfmId);
  }

  lemma CtrlReads(pre: seq<byte>, c: CtrlHdr, post: seq<byte>)
    requires c.Valid()
    ensures ReadCtrlHdr(pre + CtrlBytes(c) + post, |pre|) == c
  {}

  /** A tag the reader can tell: none, or one that starts with the 802.1Q marker. */
  predicate VlanUnderstood(vlan: seq<byte>)
    requires |vlan| == 4
  {
    vlan == NO_VLAN || (vlan[0] == 0x81 && vlan[1] == 0)
  }

  lemma EthReads(pre: seq<byte>, dst: seq<byte>, src: seq<byte>, vlan: seq<byte>, post: seq<byte>)
    requires |dst| == 6 && |src| == 6 && |vlan| == 4 && VlanUnderstood(vlan) && |post| >= 4
    requires var buff := pre + EthBytes(dst, src, vlan) + post;
      buff[12] == 0x81 && buff[13] == 0 <==> vlan != NO_VLAN
    ensures ReadEthHdr(pre + EthBytes(dst, src, vlan) + post, |pre|)
         == Some((EthHdr(dst, src, vlan, FIP_ETH_TYPE, FIP_VERSION), |pre| + |EthBytes(dst, src, vlan)|))
  {
    var e, n := EthBytes(dst, src, vlan), |pre|;
    var buff := pre + e + post;
    assert e[0..6] == dst && e[6..12] == src;
    assert buff[n..n + 6] == dst && buff[n + 6..n + 12] == src;
    if vlan == NO_VLAN {
      assert buff[n + 12..n + 14] == [0x89, 0x14] && buff[n + 14] == 0x10;
    } else {
      assert buff[n + 12..n + 16] == vlan;
      assert buff[n + 16..n + 18] == [0x89, 0x14] && buff[n + 18] == 0x10;
    }
  }

  // ---- the frame read back ----

  /** What the receiver should get: the sent headers, and the place of the descriptors. */
  function Expected(p: Packet): Outcome
    requires p.Valid()
  {
    var t := p.SentTunnel();
    Control(t.(gwId := Crossed(t.gwId), vfmId := Crossed(t.vfmId)),
            EthHdr(p.innerDst, p.innerSrc, p.vlan, FIP_ETH_TYPE, FIP_VERSION),
            p.ctrl, DescAt(p))
  }

  function DescAt(p: Packet): nat
    requires p.Valid()
  {
    2 * |EthBytes(p.dst, p.src, p.vlan)| + 32
  }

  /** The frame split at each of its headers. */
  lemma FrameParts(p: Packet)
    requires p.Valid()
    ensures var e, t, i, c := EthBytes(p.dst, p.src, p.vlan), TunnelBytes(p.SentTunnel()),
                              EthBytes(p.innerDst, p.innerSrc, p.vlan), CtrlBytes(p.ctrl);
            var rest := p.desc + [0, 0, 0, 0];
      && Frame(p) == [] + e + (t + i + c + rest)
      && Frame(p) == e + t + (i + c + rest)
      && Frame(p) == (e + t) + i + (c + rest)
      && Frame(p) == (e + t + i) + c + rest
      && Frame(p)[DescAt(p)..DescAt(p) + |p.desc|] == p.desc
  {
    hide EthBytes, TunnelBytes, CtrlBytes;
  }

  lemma FrameAroundDescriptors(p: Packet)
    requires p.Valid()
    ensures DescAt(p) <= |Frame(p)|
    ensures Frame(p) == Frame(p)[..DescAt(p)] + p.desc + [0, 0, 0, 0]
  {
    hide EthBytes, TunnelBytes, CtrlBytes;
    var pre := EthBytes(p.dst, p.src, p.vlan) + TunnelBytes(p.SentTunnel())
               + EthBytes(p.innerDst, p.innerSrc, p.vlan) + CtrlBytes(p.ctrl);
    assert |pre| == DescAt(p) && Frame(p) == pre + p.desc + [0, 0, 0, 0];
    assert Frame(p)[..|pre|] == pre;
  }

  lemma TagPlace(p: Packet)
    requires p.Valid() && VlanUnderstood(p.vlan)
    ensures |Frame(p)| > 20
    ensures Frame(p)[12] == 0x81 && Frame(p)[13] == 0 <==> p.vlan != NO_VLAN
  {}

  lemma FrameReadsBack(p: Packet)
    requires p.Valid() && p.tunnel.port < 0x80 && VlanUnderstood(p.vlan)
    ensures Process(Frame(p)) == Expected(p)
  {
    hide EthBytes, TunnelBytes, CtrlBytes, Frame, ReadEthHdr, ReadTunnelHdr, ReadCtrlHdr, VlanUnderstood;
    var e, t, i, c := EthBytes(p.dst, p.src, p.vlan), TunnelBytes(p.SentTunnel()),
                      EthBytes(p.innerDst, p.innerSrc, p.vlan), CtrlBytes(p.ctrl);
    var rest := p.desc + [0, 0, 0, 0];
    FrameParts(p);
    TagPlace(p);
    EthReads([], p.dst, p.src, p.vlan, t + i + c + rest);
    TunnelReads(e, p.SentTunnel(), i + c + rest);
    EthReads(e + t, p.innerDst, p.innerSrc, p.vlan, c + rest);
    CtrlReads(e + t + i, p.ctrl, rest);
  }

  /** A tag the reader cannot tell pushes the tunnel header out of its place. */
  lemma UnknownTagIsIgnored(p: Packet)
    requires p.Valid() && !VlanUnderstood(p.vlan)
    ensures Process(Frame(p)) == Ignored
  {}

  /** A control frame comes back with all its headers, its descriptors found, exactly when
      its tag is one the reader can tell. */
  lemma FrameRoundTripIff(p: Packet)
    requires p.Valid() && p.tunnel.port < 0x80
    ensures Process(Frame(p)) == Expected(p) <==> VlanUnderstood(p.vlan)
    ensures Frame(p)[DescAt(p)..][..4 * p.ctrl.listLength] == p.desc
  {
    FrameParts(p);
    assert Frame(p)[DescAt(p)..][..|p.desc|] == Frame(p)[DescAt(p)..DescAt(p) + |p.desc|];
    if VlanUnderstood(p.vlan) {
      FrameReadsBack(p);
    } else {
      UnknownTagIsIgnored(p);
    }
  }

  /** Sender to receiver, end to end: the descriptors put into a frame are the descriptors
      the receiver walks. */
  lemma DescriptorsCrossTheWire(p: Packet, ds: seq<Descriptor>)
    requires p.Valid() && p.tunnel.port < 0x80 && VlanUnderstood(p.vlan)
    requires AllWellFormed(ds) && p.desc == EncodeAll(BuildAll(ds))
    ensures var out := Process(Frame(p));
      && out.Control? && out.ctrl == p.ctrl
      && (var walked := Walk(Frame(p), out.at, |ds|);
          && walked.Some? && |walked.value| == |ds|
          && forall i :: 0 <= i < |ds| ==> GetTlvValue(walked.value[i]) == Some(ds[i]))
  {
    hide Frame, Process;
    FrameReadsBack(p);
    FrameAroundDescriptors(p);
    DescriptorsRoundTrip(Frame(p)[..DescAt(p)], ds, [0, 0, 0, 0]);
  }

  /** The tunnel's length byte is the frame's real length up to 243 dwords of descriptors. */
  lemma TunnelLengthIsRealIff(p: Packet)
    requires p.Valid() && p.vlan == NO_VLAN
    ensures 4 * p.SentTunnel().length as nat == |Frame(p)| - 16 - 4 <==> p.ctrl.listLength <= 243
  {}

  /** A frame for the fabric side: the FC frame directly behind the tunnel header. */
  function FcFrame(dst: seq<byte>, src: seq<byte>, tunnel: TunnelHdr, fc: seq<byte>): seq<byte>
    requires |dst| == 6 && |src| == 6 && tunnel.Valid()
  {
    EthBytes(dst, src, NO_VLAN) + TunnelBytes(tunnel.(length := (24 + |fc|) / 4 % 256)) + fc
  }

  /** With the external flag set, as on a frame from the fabric, the FC frame is found where
      it was put and nothing behind the tunnel header is looked at. */
  lemma FcFrameReadsBack(dst: seq<byte>, src: seq<byte>, tunnel: TunnelHdr, fc: seq<byte>)
    requires |dst| == 6 && |src| == 6 && tunnel.Valid() && tunnel.port >= 0x80
    ensures var out := Process(FcFrame(dst, src, tunnel, fc));
      && out.FabricFrame? && FcFrame(dst, src, tunnel, fc)[out.at..] == fc
      && out.tunnel == tunnel.(length := (24 + |fc|) / 4 % 256,
                               gwId := Crossed(tunnel.gwId), vfmId := Crossed(tunnel.vfmId))
  {
    hide TunnelBytes, ReadTunnelHdr, Crossed;
    var e, sent := EthBytes(dst, src, NO_VLAN), tunnel.(length := (24 + |fc|) / 4 % 256);
    var buff := FcFrame(dst, src, tunnel, fc);
    assert buff[12] == e[12] == 0x89;
    TunnelReads(e, sent, fc);
    assert buff[40..] == fc;
  }

  // ---- building the frame in its buffer ----

  method FillEtherHdr(buff: array<byte>, dst: seq<byte>, src: seq<byte>, vlan: seq<byte>, at: nat,
                      ghost done: seq<byte>) returns (offset: nat)
    requires |dst| == 6 && |src| == 6 && |vlan| == 4
    requires Holds(buff, done) && at == |done| && at + 20 <= buff.Length
    modifies buff
    ensures Holds(buff, done + EthBytes(dst, src, vlan)) && offset == |done + EthBytes(dst, src, vlan)|
  {
    offset := Put(buff, at, dst, done);
    offset := Put(buff, offset, src, done + dst);
    ghost var sofar := done + dst + src;
    if vlan != NO_VLAN {
      offset := Put(buff, offset, vlan, sofar);
      sofar := sofar + vlan;
    }
    offset := Put(buff, offset, [0x89, 0x14], sofar);
    offset := Put(buff, offset, [FIP_VERSION * 16, 0], sofar + [0x89, 0x14]);
    assert sofar + [0x89, 0x14] + [0x10, 0] == done + EthBytes(dst, src, vlan);
  }

  /** The frame send_packet hands to the socket, from the addresses it knows: its own, the
      bridge's and the bridge's encapsulation address. */
  function PacketFor(vfmMac: seq<byte>, conxMac: seq<byte>, bridgeMac: seq<byte>, gBridgeMac: seq<byte>,
                     gBridgeEncMac: seq<byte>, tunnel: TunnelHdr, ctrl: CtrlHdr, desc: seq<byte>): Packet
  {
    Packet(gBridgeMac, vfmMac, conxMac,
           if ctrl.opcode == 2 && ctrl.subcode == 1 then bridgeMac else gBridgeEncMac,
           NO_VLAN, tunnel, ctrl, desc)
  }

  /** The caller's control header is turned to network order where it lies. */
  function NetworkOrder(c: CtrlHdr): (r: CtrlHdr)
    requires c.Valid()
    ensures r.Valid()
  {
    c.(opcode := Swap16(c.opcode), listLength := Swap16(c.listLength), flags := Swap16(c.flags))
  }

  /** The structure's bytes on a little-endian host. */
  function CtrlMemory(c: CtrlHdr): (r: seq<byte>)
    requires c.Valid()
    ensures |r| == 8
  {
    Le16(c.opcode) + [c.reserved, c.subcode] + Le16(c.listLength) + Le16(c.flags)
  }

  /** What goes out is the turned structure as it lies in memory. */
  lemma CtrlInMemory(c: CtrlHdr)
    requires c.Valid()
    ensures CtrlMemory(NetworkOrder(c)) == CtrlBytes(c)
  {
    SwapIsOrder(c.opcode);
    SwapIsOrder(c.listLength);
    SwapIsOrder(c.flags);
  }

  lemma SwapIsOrder(n: nat)
    requires n < 0x10000
    ensures Le16(Swap16(n)) == Be16(n)
  {}

  /** So a header sent a second time goes out right exactly when its three fields read the same
      both ways round. */
  lemma SentTwiceIsRightIff(c: CtrlHdr)
    requires c.Valid()
    ensures CtrlMemory(NetworkOrder(NetworkOrder(c))) == CtrlBytes(c)
        <==> Swap16(c.opcode) == c.opcode && Swap16(c.listLength) == c.listLength && Swap16(c.flags) == c.flags
  {
    hide Swap16, Be16;
    CtrlInMemory(NetworkOrder(c));
    var n := NetworkOrder(c);
    var b, d := CtrlBytes(c), CtrlBytes(n);
    assert b[..2] == Be16(c.opcode) && b[4..6] == Be16(c.listLength) && b[6..8] == Be16(c.flags);
    assert d[..2] == Be16(n.opcode) && d[4..6] == Be16(n.listLength) && d[6..8] == Be16(n.flags);
    Be16Injective(c.opcode, n.opcode);
    Be16Injective(c.listLength, n.listLength);
    Be16Injective(c.flags, n.flags);
  }

  lemma Be16Injective(m: nat, n: nat)
    requires m < 0x10000 && n < 0x10000
    ensures Be16(m) == Be16(n) <==> m == n
  {}

  method SendPacket(tunnelFlag: bool, vfmMac: seq<byte>, conxMac: seq<byte>, bridgeMac: seq<byte>,
                    gBridgeMac: seq<byte>, gBridgeEncMac: seq<byte>, tunnel: TunnelHdr, ctrl: CtrlHdr,
                    desc: seq<byte>)
    returns (buff: array<byte>, length: nat, sentTunnel: TunnelHdr, sentCtrl: CtrlHdr)
    requires |vfmMac| == 6 && |conxMac| == 6 && |bridgeMac| == 6 && |gBridgeMac| == 6 && |gBridgeEncMac| == 6
    requires tunnel.Valid() && ctrl.Valid() && |desc| == 4 * ctrl.listLength
    requires |desc| + 68 <= MAX_PK_LEN
    ensures sentTunnel == if tunnelFlag then tunnel.(length := TunnelLength(ctrl.listLength)) else tunnel
    ensures sentCtrl == NetworkOrder(ctrl)
    ensures fresh(buff) && length <= buff.Length == MAX_PK_LEN
    ensures var p := PacketFor(vfmMac, conxMac, bridgeMac, gBridgeMac, gBridgeEncMac, tunnel, ctrl, desc);
      buff[..length] == if tunnelFlag then Frame(p)
                        else EthBytes(gBridgeMac, vfmMac, NO_VLAN) + CtrlBytes(ctrl) + desc
  {
    hide Holds, EthBytes, TunnelBytes, CtrlBytes, CtrlMemory, NetworkOrder;
    buff := new byte[MAX_PK_LEN](_ => 0);
    var vlan := NO_VLAN;
    var offset := 0;
    sentTunnel := tunnel;
    HoldsNothing(buff);
    offset := FillEtherHdr(buff, gBridgeMac, vfmMac, vlan, offset, []);
    ghost var done := [] + EthBytes(gBridgeMac, vfmMac, vlan);
    if tunnelFlag {
      sentTunnel := tunnel.(length := (24 + 4 * 4 + 8 + |desc|) / 4 % 256);
      offset := Put(buff, offset, TunnelBytes(sentTunnel), done);
      done := done + TunnelBytes(sentTunnel);
      var src := if ctrl.opcode == 2 && ctrl.subcode == 1 then bridgeMac else gBridgeEncMac;
      offset := FillEtherHdr(buff, conxMac, src, vlan, offset, done);
      done := done + EthBytes(conxMac, src, vlan);
    }
    sentCtrl := NetworkOrder(ctrl);
    CtrlInMemory(ctrl);
    offset := Put(buff, offset, CtrlMemory(sentCtrl), done);
    offset := Put(buff, offset, desc, done + CtrlBytes(ctrl));
    done := done + CtrlBytes(ctrl) + desc;
    if tunnelFlag {
      offset := Put(buff, offset, [0, 0, 0, 0], done);
      done := done + [0, 0, 0, 0];
    }
    length := offset;
    HeldPart(buff, done);
    assert [] + EthBytes(gBridgeMac, vfmMac, vlan) == EthBytes(gBridgeMac, vfmMac, vlan);
  }

  lemma HeldPart(buff: array<byte>, done: seq<byte>)
    requires Holds(buff, done)
    ensures |done| <= buff.Length && buff[..|done|] == done
  {}
}

/** Reading a received packet through a moving position. */
module PacketReader {
  import opened Bytes
  import opened FipFrames
  import opened Wrappers

  lemma Part(buff: array<byte>, i: nat, j: nat)
    requires i <= j <= buff.Length
    ensures buff[..][i..j] == buff[i..j]
  {}

  /** Takes the 20 bytes of a tagged header, and steps back if there was no tag. */
  method EthernetHeader(buff: array<byte>, at: nat) returns (hdr: Option<EthHdr>, retPos: nat)
    ensures ReadEthHdr(buff[..], at) == if hdr.None? then None else Some((hdr.value, retPos))
    ensures retPos >= at
  {
    hdr, retPos := None, at;
    if at + 20 <= buff.Length {
      Part(buff, at, at + 6);
      Part(buff, at + 6, at + 12);
      var dst, src, vlan := buff[at..at + 6], buff[at + 6..at + 12], buff[at + 12..at + 16];
      var etherType, version := buff[at + 16..at + 18], buff[at + 18];
      retPos := at + 20;
      Part(buff, at + 12, at + 16);
      Part(buff, at + 16, at + 18);
      if buff[12] != 0x81 || buff[13] != 0 {
        retPos := retPos - 2 * 4;
        etherType, version := buff[retPos..retPos + 2], buff[retPos + 2];
        Part(buff, retPos, retPos + 2);
        vlan := NO_VLAN;
        retPos := retPos + 4;
      }
      hdr := Some(EthHdr(dst, src, vlan, FromBe16(etherType), version as nat / 16));
    }
  }

  /** A packet marked as coming from a local manager is put aside unread. */
  const LOCAL_VFM := 0

  method ProcessPacket(vfmType: nat, buff: array<byte>) returns (o: Outcome)
    ensures o == if vfmType == LOCAL_VFM then Ignored else Process(buff[..])
  {
    if vfmType == LOCAL_VFM {
      return Ignored;
    }
    hide ReadEthHdr, ReadTunnelHdr, ReadCtrlHdr;
    var outer, retPos := EthernetHeader(buff, 0);
    if outer.None? {
      return Ignored;
    }
    if retPos + 24 > buff.Length {
      return Incomplete;
    }
    if buff[retPos] != TUNNEL {
      return Ignored;
    }
    var tunnel := ReadTunnelHdr(buff[..], retPos);
    retPos := retPos + 24;
    if tunnel.port >= 0x80 {
      return FabricFrame(tunnel, retPos);
    }
    var inner;
    inner, retPos := EthernetHeader(buff, retPos);
    if inner.None? {
      return Ignored;
    }
    if inner.value.etherType == FCOE_ETH_TYPE {
      return ElsRequest(tunnel, inner.value, retPos);
    }
    if retPos + 8 > buff.Length {
      return Incomplete;
    }
    var ctrl := ReadCtrlHdr(buff[..], retPos);
    retPos := retPos + 8;
    if buff.Length - retPos < ctrl.listLength * 4 {
      return Incomplete;
    }
    o := Control(tunnel, inner.value, ctrl, retPos);
  }
}

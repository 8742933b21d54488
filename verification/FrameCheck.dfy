/** The checksum at the end of a Fibre Channel frame, and the frames the forwarder builds
    around it. */
module FrameCheck {
  import opened Buffers
  import opened Crc32
  import opened Crc32Tables
  import opened CrcBits
  import opened EtherCrc32

  const RESIDUE: bv32 := 0xdebb20e3

  function LeBytes(w: bv32): (r: seq<bv8>)
    ensures |r| == 4
  {
    [Byte0(w), Byte1(w), Byte2(w), Byte3(w)]
  }

  function Complement(c: bv32): bv32 {
    !c
  }

  /** The four bytes the frame builder stores: the complemented checksum, low byte first. */
  function Trailer(body: seq<bv8>): (r: seq<bv8>)
    ensures |r| == 4
  {
    LeBytes(Complement(Register(SEED, body)))
  }

  lemma ByteOfLeWord0(b0: bv8, b1: bv8, b2: bv8, b3: bv8)
    ensures Byte0(LeWord(b0, b1, b2, b3)) == b0
  {}

  lemma ByteOfLeWord1(b0: bv8, b1: bv8, b2: bv8, b3: bv8)
    ensures Byte1(LeWord(b0, b1, b2, b3)) == b1
  {}

  lemma ByteOfLeWord2(b0: bv8, b1: bv8, b2: bv8, b3: bv8)
    ensures Byte2(LeWord(b0, b1, b2, b3)) == b2
  {}

  lemma ByteOfLeWord3(b0: bv8, b1: bv8, b2: bv8, b3: bv8)
    ensures Byte3(LeWord(b0, b1, b2, b3)) == b3
  {}

  lemma ComplementIsInverse(c: bv32)
    ensures Xor(Complement(c), c) == 0xffffffff
  {}

  lemma ComplementFills(c: bv32, w: bv32)
    ensures Xor(c, w) == 0xffffffff <==> w == Complement(c)
  {
    hide Xor, Complement;
    ComplementIsInverse(c);
    XorCommutes(c, w);
    XorCancel(w, Complement(c), c);
  }

  lemma ResidueSteps()
    ensures Steps(8, 0xffffffff) == 0x2dfd1072
    ensures Steps(8, 0x2dfd1072) == 0xbe26ed00
    ensures Steps(8, 0x00be26ed) == RESIDUE
  {}

  lemma ResidueConstant()
    ensures Steps(32, 0xffffffff) == RESIDUE
  {
    hide Steps;
    ResidueSteps();
    ShiftOut(0xbe26ed00);
    StepsAdd(8, 24, 0xffffffff);
    StepsAdd(8, 16, 0x2dfd1072);
    StepsAdd(8, 8, 0xbe26ed00);
  }

  /** A received frame checks, by leaving the residue, exactly when its last four bytes are
      the trailer of what comes before them. */
  lemma ResidueIff(body: seq<bv8>, t: seq<bv8>)
    requires |t| == 4
    ensures Register(SEED, body + t) == RESIDUE <==> t == Trailer(body)
  {
    hide Register, Steps, Xor, LeWord, LeBytes, Complement, Byte0, Byte1, Byte2, Byte3;
    var c := Register(SEED, body);
    var w := LeWord(t[0], t[1], t[2], t[3]);
    RegisterAppend(SEED, body, t);
    assert t == [t[0], t[1], t[2], t[3]];
    RegisterWord(c, t[0], t[1], t[2], t[3]);
    ResidueConstant();
    StepsInjective(32, Xor(c, w), 0xffffffff);
    ComplementFills(c, w);
    ByteOfLeWord0(t[0], t[1], t[2], t[3]);
    ByteOfLeWord1(t[0], t[1], t[2], t[3]);
    ByteOfLeWord2(t[0], t[1], t[2], t[3]);
    ByteOfLeWord3(t[0], t[1], t[2], t[3]);
    LeBytesAre(w);
    if LeBytes(w) == LeBytes(Complement(c)) {
      LeBytesInjective(w, Complement(c));
    }
  }

  lemma LeBytesAre(w: bv32)
    ensures LeBytes(w) == [Byte0(w), Byte1(w), Byte2(w), Byte3(w)]
  {}

  lemma LeBytesInjective(v: bv32, w: bv32)
    requires LeBytes(v) == LeBytes(w)
    ensures v == w
  {}

  /** A checked frame hit by a burst of at most 32 bits, anywhere, no longer checks. */
  lemma BurstBreaksFrame(body: seq<bv8>, received: seq<bv8>, p: nat)
    requires BurstAt(Bits(body + Trailer(body)), Bits(received), p)
    ensures Register(SEED, received) != RESIDUE
  {
    hide Register, Trailer, Bits, BurstAt;
    ResidueIff(body, Trailer(body));
    BurstDetected(SEED, body + Trailer(body), received, p);
  }

  // ---- forwarding an ELS frame to a host ----

  function NetWord(b0: bv8, b1: bv8, b2: bv8, b3: bv8): bv32 {
    (b0 as bv32 << 24) | (b1 as bv32 << 16) | (b2 as bv32 << 8) | b3 as bv32
  }

  function Mask24(w: bv32): bv32 {
    w & 0x00ffffff
  }

  function NetHalf(b0: bv8, b1: bv8): bv16 {
    (b0 as bv16 << 8) | b1 as bv16
  }

  function BeBytes(w: bv32): (r: seq<bv8>)
    ensures |r| == 4
  {
    [Byte3(w), Byte2(w), Byte1(w), Byte0(w)]
  }

  function BeBytes16(w: bv16): (r: seq<bv8>)
    ensures |r| == 2
  {
    [(w >> 8) as bv8, (w & 0xff) as bv8]
  }

  datatype FcHdr = FcHdr(
    rtCtrlDestId: bv32,
    srcId: bv32,
    typeFrameCtrl: bv32,
    seqId: bv8,
    dataFieldCtrl: bv8,
    seqCount: bv16,
    oxId: bv16,
    resId: bv16,
    parameter: bv32)

  const FC_HDR_SIZE := 24

  /** Reads the header; the top byte of the source address is masked off. */
  function ReadFcHdr(h: seq<bv8>): FcHdr
    requires |h| == FC_HDR_SIZE
  {
    FcHdr(NetWord(h[0], h[1], h[2], h[3]),
          Mask24(NetWord(h[4], h[5], h[6], h[7])),
          NetWord(h[8], h[9], h[10], h[11]),
          h[12], h[13],
          NetHalf(h[14], h[15]), NetHalf(h[16], h[17]), NetHalf(h[18], h[19]),
          NetWord(h[20], h[21], h[22], h[23]))
  }

  /** Writes the header back. Every field but the parameter returns to network order. */
  function ForwardFcHdr(f: FcHdr): (r: seq<bv8>)
    ensures |r| == FC_HDR_SIZE
  {
    BeBytes(f.rtCtrlDestId) + BeBytes(f.srcId) + BeBytes(f.typeFrameCtrl)
    + [f.seqId, f.dataFieldCtrl]
    + BeBytes16(f.seqCount) + BeBytes16(f.oxId) + BeBytes16(f.resId)
    + LeBytes(f.parameter)
  }

  lemma NetWordRoundTrip(b0: bv8, b1: bv8, b2: bv8, b3: bv8)
    ensures BeBytes(NetWord(b0, b1, b2, b3)) == [b0, b1, b2, b3]
    ensures LeBytes(NetWord(b0, b1, b2, b3)) == [b3, b2, b1, b0]
    ensures BeBytes(Mask24(NetWord(b0, b1, b2, b3))) == [0, b1, b2, b3]
  {}

  lemma NetHalfRoundTrip(b0: bv8, b1: bv8)
    ensures BeBytes16(NetHalf(b0, b1)) == [b0, b1]
  {}

  lemma WordField(h: seq<bv8>, i: nat)
    requires i + 4 <= |h|
    ensures BeBytes(NetWord(h[i], h[i + 1], h[i + 2], h[i + 3])) == h[i..i + 4]
    ensures LeBytes(NetWord(h[i], h[i + 1], h[i + 2], h[i + 3])) == [h[i + 3], h[i + 2], h[i + 1], h[i]]
    ensures BeBytes(Mask24(NetWord(h[i], h[i + 1], h[i + 2], h[i + 3]))) == [0] + h[i + 1..i + 4]
  {
    hide NetWord, BeBytes, LeBytes, Mask24;
    NetWordRoundTrip(h[i], h[i + 1], h[i + 2], h[i + 3]);
  }

  lemma HalfField(h: seq<bv8>, i: nat)
    requires i + 2 <= |h|
    ensures BeBytes16(NetHalf(h[i], h[i + 1])) == h[i..i + 2]
  {
    hide NetHalf, BeBytes16;
    NetHalfRoundTrip(h[i], h[i + 1]);
  }

  /** The header written back, field by field. */
  lemma ForwardedFields(h: seq<bv8>)
    requires |h| == FC_HDR_SIZE
    ensures var f := ReadFcHdr(h);
      && BeBytes(f.rtCtrlDestId) == h[..4]
      && BeBytes(f.srcId) == [0] + h[5..8]
      && BeBytes(f.typeFrameCtrl) == h[8..12]
      && [f.seqId, f.dataFieldCtrl] == h[12..14]
      && BeBytes16(f.seqCount) == h[14..16]
      && BeBytes16(f.oxId) == h[16..18]
      && BeBytes16(f.resId) == h[18..20]
      && LeBytes(f.parameter) == [h[23], h[22], h[21], h[20]]
  {
    hide NetWord, NetHalf, BeBytes, BeBytes16, LeBytes, Mask24;
    var f := ReadFcHdr(h);
    assert BeBytes(f.rtCtrlDestId) == h[..4] by { WordField(h, 0); }
    assert BeBytes(f.srcId) == [0] + h[5..8] by { WordField(h, 4); }
    assert BeBytes(f.typeFrameCtrl) == h[8..12] by { WordField(h, 8); }
    assert BeBytes16(f.seqCount) == h[14..16] by { HalfField(h, 14); }
    assert BeBytes16(f.oxId) == h[16..18] by { HalfField(h, 16); }
    assert BeBytes16(f.resId) == h[18..20] by { HalfField(h, 18); }
    assert LeBytes(f.parameter) == [h[23], h[22], h[21], h[20]] by { WordField(h, 20); }
  }

  /** What forwarding does to the 24 bytes of a header. */
  lemma ForwardedBytes(h: seq<bv8>)
    requires |h| == FC_HDR_SIZE
    ensures ForwardFcHdr(ReadFcHdr(h))
         == h[..4] + [0] + h[5..20] + [h[23], h[22], h[21], h[20]]
  {
    hide BeBytes, BeBytes16, LeBytes, ReadFcHdr;
    ForwardedFields(h);
    JoinPieces(h, 0, [h[23], h[22], h[21], h[20]]);
  }

  lemma JoinPieces<T>(h: seq<T>, z: T, tail: seq<T>)
    requires |h| == FC_HDR_SIZE
    ensures h[..4] + ([z] + h[5..8]) + h[8..12] + h[12..14] + h[14..16] + h[16..18] + h[18..20] + tail
         == h[..4] + [z] + h[5..20] + tail
  {}

  /** A header passes through unchanged exactly when its reserved byte is clear and its
      parameter reads the same in both byte orders. */
  lemma ForwardedUnchangedIff(h: seq<bv8>)
    requires |h| == FC_HDR_SIZE
    ensures ForwardFcHdr(ReadFcHdr(h)) == h <==> h[4] == 0 && h[20] == h[23] && h[21] == h[22]
  {
    hide ForwardFcHdr, ReadFcHdr;
    ForwardedBytes(h);
    var f := h[..4] + [0] + h[5..20] + [h[23], h[22], h[21], h[20]];
    assert f[4] == 0 && f[20] == h[23] && f[21] == h[22] && f[22] == h[21] && f[23] == h[20];
  }

  /** The older form's field: version 0, ten bits of length, the start-of-frame code. */
  function SofWord(dwords: bv16): bv16 {
    ((dwords & 0x3ff) << 4) | 0xe
  }

  /** Length in dwords of a body and its trailer. */
  function BodyDwords(bodyLen: nat): bv16 {
    ((bodyLen + 4) / 4 % 0x10000) as bv16
  }

  /** Start of frame: 13 reserved bytes and 0x2e, or the field in network order. */
  function FcoeSof(bodyLen: nat, t11: bool): (r: seq<bv8>)
    ensures |r| == if t11 then 14 else 2
  {
    if t11 then [0, 0, 0, 0, 0, 0, 0, 0, 0, 0, 0, 0, 0, 0x2e] else BeBytes16(SofWord(BodyDwords(bodyLen)))
  }

  /** The FCoE encapsulation header: 28 bytes in the T11 form, 16 in the older one. */
  function FcoeHdr(fcMap: seq<bv8>, bridgeMac: seq<bv8>, h: seq<bv8>, bodyLen: nat, t11: bool): (r: seq<bv8>)
    requires |fcMap| == 3 && |bridgeMac| == 6 && |h| == FC_HDR_SIZE
    ensures |r| == if t11 then 28 else 16
  {
    fcMap + h[1..4] + bridgeMac + [0x89, 0x06] + FcoeSof(bodyLen, t11)
  }

  const EOF: bv8 := 0x42

  /** The frame a host receives: encapsulation, header and payload, trailer, end mark, and
      in the T11 form three bytes of padding. */
  function ElsFrame(fcMap: seq<bv8>, bridgeMac: seq<bv8>, h: seq<bv8>, payload: seq<bv8>, t11: bool): seq<bv8>
    requires |fcMap| == 3 && |bridgeMac| == 6 && |h| == FC_HDR_SIZE
  {
    var body := ForwardFcHdr(ReadFcHdr(h)) + payload;
    FcoeHdr(fcMap, bridgeMac, h, |body|, t11) + body + Trailer(body) + [EOF]
    + if t11 then [0, 0, 0] else []
  }

  /** The header and payload in a forwarded frame, with their trailer, pass the check. */
  lemma ElsFrameChecks(fcMap: seq<bv8>, bridgeMac: seq<bv8>, h: seq<bv8>, payload: seq<bv8>, t11: bool)
    requires |fcMap| == 3 && |bridgeMac| == 6 && |h| == FC_HDR_SIZE
    ensures var frame := ElsFrame(fcMap, bridgeMac, h, payload, t11);
            var k := if t11 then 28 else 16;
            && |frame| == k + FC_HDR_SIZE + |payload| + (if t11 then 8 else 5)
            && Register(SEED, frame[k..k + FC_HDR_SIZE + |payload| + 4]) == RESIDUE
  {
    hide Register, Trailer, FcoeHdr, ForwardFcHdr, ReadFcHdr;
    var body := ForwardFcHdr(ReadFcHdr(h)) + payload;
    var frame := ElsFrame(fcMap, bridgeMac, h, payload, t11);
    var k := if t11 then 28 else 16;
    assert frame[k..k + |body| + 4] == body + Trailer(body);
    ResidueIff(body, Trailer(body));
  }

  lemma SofFields(d: bv16)
    ensures var s := BeBytes16(SofWord(d)); NetHalf(s[0], s[1]) == SofWord(d)
    ensures SofWord(d) >> 14 == 0 && SofWord(d) >> 4 == d & 0x3ff && SofWord(d) & 0xf == 0xe
  {}

  /** Read back, the older form's field gives version 0, the length of body and trailer in
      dwords modulo 1024, and the start-of-frame code. */
  lemma SofDecodes(bodyLen: nat)
    ensures var s := FcoeSof(bodyLen, false);
            var w := NetHalf(s[0], s[1]);
            w >> 14 == 0 && w >> 4 == BodyDwords(bodyLen) & 0x3ff && w & 0xf == 0xe
  {
    hide NetHalf, BeBytes16, SofWord, BodyDwords;
    SofFields(BodyDwords(bodyLen));
  }

  /** The tunnel's port with its external flag taken off. */
  function InternalPort(port: bv8): bv8 {
    port & 0x7f
  }

  /** A forwarded frame is internal, and otherwise keeps its port. */
  lemma ForwardedIsInternal(port: bv8)
    ensures InternalPort(port) & 0x80 == 0 && (InternalPort(port) | (port & 0x80)) == port
  {}

  /** Taken apart by the host, the frame gives the host's address as the fabric assigned it,
      the bridge's address, the FCoE type, the payload unchanged, and the end mark. */
  lemma ElsFrameParts(fcMap: seq<bv8>, bridgeMac: seq<bv8>, h: seq<bv8>, payload: seq<bv8>, t11: bool)
    requires |fcMap| == 3 && |bridgeMac| == 6 && |h| == FC_HDR_SIZE
    ensures var frame := ElsFrame(fcMap, bridgeMac, h, payload, t11);
            var k := if t11 then 28 else 16;
            && |frame| >= k + FC_HDR_SIZE + |payload| + 5
            && frame[..6] == fcMap + h[1..4] && frame[6..12] == bridgeMac && frame[12..14] == [0x89, 0x06]
            && frame[k..k + FC_HDR_SIZE] == h[..4] + [0] + h[5..20] + [h[23], h[22], h[21], h[20]]
            && frame[k + FC_HDR_SIZE..k + FC_HDR_SIZE + |payload|] == payload
            && frame[k + FC_HDR_SIZE + |payload| + 4] == EOF
  {
    hide Trailer, ForwardFcHdr, ReadFcHdr, FcoeSof;
    ForwardedBytes(h);
    var forwarded := ForwardFcHdr(ReadFcHdr(h));
    var body := forwarded + payload;
    var head := FcoeHdr(fcMap, bridgeMac, h, |body|, t11);
    var frame := ElsFrame(fcMap, bridgeMac, h, payload, t11);
    var k := |head|;
    assert frame[..k] == head;
    assert frame[..6] == head[..6] && frame[6..12] == head[6..12] && frame[12..14] == head[12..14];
    assert frame[k..k + |body|] == body;
    assert frame[k..k + FC_HDR_SIZE] == body[..FC_HDR_SIZE] == forwarded;
    assert frame[k + FC_HDR_SIZE..k + |body|] == body[FC_HDR_SIZE..] == payload;
  }

  // ---- building the frame in its buffer ----

  /** `done` has been written and the rest of the buffer is still zero. */
  ghost predicate Filled(buff: array<bv8>, done: seq<bv8>)
    reads buff
  {
    Holds(buff, done) && forall i :: |done| <= i < buff.Length ==> buff[i] == 0
  }

  method PutNext(buff: array<bv8>, temp: nat, src: seq<bv8>, ghost done: seq<bv8>) returns (next: nat)
    requires Filled(buff, done) && temp == |done| && temp + |src| <= buff.Length
    modifies buff
    ensures Filled(buff, done + src) && next == |done + src|
  {
    next := Put(buff, temp, src, done);
    assert forall i :: next <= i < buff.Length ==> buff[i] == buff[next..][i - next];
  }

  method BuildFcoeHdr(buff: array<bv8>, fcMap: seq<bv8>, bridgeMac: seq<bv8>, h: seq<bv8>, len: nat, t11: bool)
    returns (temp: nat)
    requires |fcMap| == 3 && |bridgeMac| == 6 && |h| == FC_HDR_SIZE
    requires Filled(buff, []) && 28 <= buff.Length
    modifies buff
    ensures Filled(buff, FcoeHdr(fcMap, bridgeMac, h, len, t11))
    ensures temp == |FcoeHdr(fcMap, bridgeMac, h, len, t11)|
  {
    hide Filled, FcoeSof;
    var sof := FcoeSof(len, t11);
    ghost var done := [];
    temp := PutNext(buff, 0, fcMap, done);
    done := done + fcMap;
    temp := PutNext(buff, temp, h[1..4], done);
    done := done + h[1..4];
    temp := PutNext(buff, temp, bridgeMac, done);
    done := done + bridgeMac;
    temp := PutNext(buff, temp, [0x89, 0x06], done);
    done := done + [0x89, 0x06];
    temp := PutNext(buff, temp, sof, done);
    assert done + sof == FcoeHdr(fcMap, bridgeMac, h, len, t11);
  }

  lemma FilledRest(buff: array<bv8>, done: seq<bv8>, rest: seq<bv8>)
    requires Filled(buff, done) && buff.Length == |done| + |rest|
    requires forall i :: 0 <= i < |rest| ==> rest[i] == 0
    ensures buff[..] == done + rest
  {}

  /** Header and payload, their trailer and the end mark, behind what is there. */
  method PutBody(buff: array<bv8>, at: nat, header: seq<bv8>, payload: seq<bv8>, ghost done: seq<bv8>)
    requires Filled(buff, done) && at == |done| && |done| + |header| + |payload| + 5 <= buff.Length
    modifies buff
    ensures Filled(buff, done + (header + payload) + Trailer(header + payload) + [EOF])
  {
    hide Filled, Register, Complement, LeBytes;
    var temp := PutNext(buff, at, header, done);
    temp := PutNext(buff, temp, payload, done + header);
    assert done + header + payload == done + (header + payload);
    var crc := EtherCrc32Le(header + payload);
    temp := PutNext(buff, temp, LeBytes(Complement(crc)), done + (header + payload));
    temp := PutNext(buff, temp, [EOF], done + (header + payload) + Trailer(header + payload));
  }

  method BuildElsFrame(port: bv8, fcMap: seq<bv8>, bridgeMac: seq<bv8>, h: seq<bv8>, payload: seq<bv8>, t11: bool)
    returns (buff: array<bv8>, tunnelLength: nat, tunnelPort: bv8)
    requires |fcMap| == 3 && |bridgeMac| == 6 && |h| == FC_HDR_SIZE
    ensures fresh(buff)
    ensures buff[..] == ElsFrame(fcMap, bridgeMac, h, payload, t11)
    ensures tunnelLength == (buff.Length + 24) / 4 % 256
    ensures tunnelPort == InternalPort(port)
  {
    hide ForwardFcHdr, ReadFcHdr, FcoeHdr, Trailer;
    tunnelPort := port & 0x7f;
    var len := FC_HDR_SIZE + |payload|;
    var length := if t11 then 28 + len + 8 else 16 + len + 5;
    buff := new bv8[length](_ => 0);
    tunnelLength := (length + 24) / 4 % 256;
    assert Filled(buff, []);
    hide Filled;
    ghost var done := FcoeHdr(fcMap, bridgeMac, h, len, t11);
    var temp := BuildFcoeHdr(buff, fcMap, bridgeMac, h, len, t11);
    var header := ForwardFcHdr(ReadFcHdr(h));
    PutBody(buff, temp, header, payload, done);
    done := done + (header + payload) + Trailer(header + payload) + [EOF];
    FilledRest(buff, done, if t11 then [0, 0, 0] else []);
  }
}

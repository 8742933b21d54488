/** The lookup tables of the slicing-by-8 form and what one 8-byte slice computes. Table k
    is the effect of k + 1 whole bytes of clocks on a single byte; the source's table o32
    is Table(0), o40 is Table(1), and so on up to o88, which is Table(7). */
module Crc32Tables {
  import opened Crc32

  function Table(k: nat, b: bv8): bv32 {
    Steps(8 * (k + 1), Wide(b))
  }

  // ---- the literal entries ----

  /** The source's entries at the eight powers of two, table by table. */
  function PowerEntries(k: nat): (r: seq<bv32>)
    ensures |r| == 8
  {
    if k == 0 then
      [0x77073096, 0xee0e612c, 0x076dc419, 0x0edb8832, 0x1db71064, 0x3b6e20c8, 0x76dc4190, 0xedb88320]
    else if k == 1 then
      [0x191b3141, 0x32366282, 0x646cc504, 0xc8d98a08, 0x4ac21251, 0x958424a2, 0xf0794f05, 0x3b83984b]
    else if k == 2 then
      [0x01c26a37, 0x0384d46e, 0x0709a8dc, 0x0e1351b8, 0x1c26a370, 0x384d46e0, 0x709a8dc0, 0xe1351b80]
    else if k == 3 then
      [0xb8bc6765, 0xaa09c88b, 0x8f629757, 0xc5b428ef, 0x5019579f, 0xa032af3e, 0x9b14583d, 0xed59b63b]
    else if k == 4 then
      [0x3d6029b0, 0x7ac05360, 0xf580a6c0, 0x30704bc1, 0x60e09782, 0xc1c12f04, 0x58f35849, 0xb1e6b092]
    else if k == 5 then
      [0xcb5cd3a5, 0x4dc8a10b, 0x9b914216, 0xec53826d, 0x03d6029b, 0x07ac0536, 0x0f580a6c, 0x1eb014d8]
    else if k == 6 then
      [0xa6770bb4, 0x979f1129, 0xf44f2413, 0x33ef4e67, 0x67de9cce, 0xcfbd399c, 0x440b7579, 0x8816eaf2]
    else
      [0xccaa009e, 0x4225077d, 0x844a0efa, 0xd3e51bb5, 0x7cbb312b, 0xf9766256, 0x299dc2ed, 0x533b85da]
  }

  lemma PowersO32()
    ensures Steps(8, 0x1) == 0x77073096
    ensures Steps(8, 0x2) == 0xee0e612c
    ensures Steps(8, 0x4) == 0x076dc419
    ensures Steps(8, 0x8) == 0x0edb8832
    ensures Steps(8, 0x10) == 0x1db71064
    ensures Steps(8, 0x20) == 0x3b6e20c8
    ensures Steps(8, 0x40) == 0x76dc4190
    ensures Steps(8, 0x80) == 0xedb88320
  {}

  lemma PowersO40()
    ensures Steps(8, 0x77073096) == 0x191b3141
    ensures Steps(8, 0xee0e612c) == 0x32366282
    ensures Steps(8, 0x076dc419) == 0x646cc504
    ensures Steps(8, 0x0edb8832) == 0xc8d98a08
    ensures Steps(8, 0x1db71064) == 0x4ac21251
    ensures Steps(8, 0x3b6e20c8) == 0x958424a2
    ensures Steps(8, 0x76dc4190) == 0xf0794f05
    ensures Steps(8, 0xedb88320) == 0x3b83984b
  {}

  lemma PowersO48()
    ensures Steps(8, 0x191b3141) == 0x01c26a37
    ensures Steps(8, 0x32366282) == 0x0384d46e
    ensures Steps(8, 0x646cc504) == 0x0709a8dc
    ensures Steps(8, 0xc8d98a08) == 0x0e1351b8
    ensures Steps(8, 0x4ac21251) == 0x1c26a370
    ensures Steps(8, 0x958424a2) == 0x384d46e0
    ensures Steps(8, 0xf0794f05) == 0x709a8dc0
    ensures Steps(8, 0x3b83984b) == 0xe1351b80
  {}

  lemma PowersO56()
    ensures Steps(8, 0x01c26a37) == 0xb8bc6765
    ensures Steps(8, 0x0384d46e) == 0xaa09c88b
    ensures Steps(8, 0x0709a8dc) == 0x8f629757
    ensures Steps(8, 0x0e1351b8) == 0xc5b428ef
    ensures Steps(8, 0x1c26a370) == 0x5019579f
    ensures Steps(8, 0x384d46e0) == 0xa032af3e
    ensures Steps(8, 0x709a8dc0) == 0x9b14583d
    ensures Steps(8, 0xe1351b80) == 0xed59b63b
  {}

  lemma PowersO64()
    ensures Steps(8, 0xb8bc6765) == 0x3d6029b0
    ensures Steps(8, 0xaa09c88b) == 0x7ac05360
    ensures Steps(8, 0x8f629757) == 0xf580a6c0
    ensures Steps(8, 0xc5b428ef) == 0x30704bc1
    ensures Steps(8, 0x5019579f) == 0x60e09782
    ensures Steps(8, 0xa032af3e) == 0xc1c12f04
    ensures Steps(8, 0x9b14583d) == 0x58f35849
    ensures Steps(8, 0xed59b63b) == 0xb1e6b092
  {}

  lemma PowersO72()
    ensures Steps(8, 0x3d6029b0) == 0xcb5cd3a5
    ensures Steps(8, 0x7ac05360) == 0x4dc8a10b
    ensures Steps(8, 0xf580a6c0) == 0x9b914216
    ensures Steps(8, 0x30704bc1) == 0xec53826d
    ensures Steps(8, 0x60e09782) == 0x03d6029b
    ensures Steps(8, 0xc1c12f04) == 0x07ac0536
    ensures Steps(8, 0x58f35849) == 0x0f580a6c
    ensures Steps(8, 0xb1e6b092) == 0x1eb014d8
  {}

  lemma PowersO80()
    ensures Steps(8, 0xcb5cd3a5) == 0xa6770bb4
    ensures Steps(8, 0x4dc8a10b) == 0x979f1129
    ensures Steps(8, 0x9b914216) == 0xf44f2413
    ensures Steps(8, 0xec53826d) == 0x33ef4e67
    ensures Steps(8, 0x03d6029b) == 0x67de9cce
    ensures Steps(8, 0x07ac0536) == 0xcfbd399c
    ensures Steps(8, 0x0f580a6c) == 0x440b7579
    ensures Steps(8, 0x1eb014d8) == 0x8816eaf2
  {}

  lemma PowersO88()
    ensures Steps(8, 0xa6770bb4) == 0xccaa009e
    ensures Steps(8, 0x979f1129) == 0x4225077d
    ensures Steps(8, 0xf44f2413) == 0x844a0efa
    ensures Steps(8, 0x33ef4e67) == 0xd3e51bb5
    ensures Steps(8, 0x67de9cce) == 0x7cbb312b
    ensures Steps(8, 0xcfbd399c) == 0xf9766256
    ensures Steps(8, 0x440b7579) == 0x299dc2ed
    ensures Steps(8, 0x8816eaf2) == 0x533b85da
  {}

  function Power(j: nat): bv8
    requires j < 8
  {
    [1, 2, 4, 8, 16, 32, 64, 128][j]
  }

  lemma TableNext(k: nat, b: bv8)
    ensures Table(k + 1, b) == Steps(8, Table(k, b))
  {
    hide Steps;
    StepsAdd(8 * (k + 1), 8, Wide(b));
  }

  /** Each later table is one more byte step of the table before it. */
  lemma TableRecurrence(k: nat, b: bv8)
    ensures Table(k + 1, b) == Xor(Steps(8, Table(k, b) & 0xff), Table(k, b) >> 8)
  {
    hide Steps, Xor;
    TableNext(k, b);
    ByteStep(Table(k, b));
  }

  lemma Base(j: nat)
    requires j < 8
    ensures Table(0, Power(j)) == PowerEntries(0)[j]
  {
    hide Steps;
    PowersO32();
    assert Wide(1) == 1 && Wide(2) == 2 && Wide(4) == 4 && Wide(8) == 8;
    assert Wide(16) == 16 && Wide(32) == 32 && Wide(64) == 64 && Wide(128) == 128;
  }

  /** All 64 power-of-two entries of the eight tables are the ones the source lists. */
  lemma {:induction false} PowersAreListed(k: nat, j: nat)
    requires k < 8 && j < 8
    ensures Table(k, Power(j)) == PowerEntries(k)[j]
  {
    hide Steps, Table;
    if k == 0 {
      Base(j);
    } else {
      PowersAreListed(k - 1, j);
      TableNext(k - 1, Power(j));
      if k == 1 { PowersO40(); }
      if k == 2 { PowersO48(); }
      if k == 3 { PowersO56(); }
      if k == 4 { PowersO64(); }
      if k == 5 { PowersO72(); }
      if k == 6 { PowersO80(); }
      if k == 7 { PowersO88(); }
    }
  }

  function XorByte(a: bv8, b: bv8): bv8 {
    a ^ b
  }

  lemma TableLinear(k: nat, a: bv8, b: bv8)
    ensures Table(k, XorByte(a, b)) == Xor(Table(k, a), Table(k, b))
  {
    hide Steps, Xor, Wide, XorByte;
    WideXor(a, b);
    StepsLinear(8 * (k + 1), Wide(a), Wide(b));
  }

  lemma WideXor(a: bv8, b: bv8)
    ensures Wide(XorByte(a, b)) == Xor(Wide(a), Wide(b))
  {}

  ghost predicate Linear(t: bv8 -> bv32) {
    forall a: bv8, b: bv8 :: t(XorByte(a, b)) == Xor(t(a), t(b))
  }

  /** The part of b in its bits below j. */
  function Below(b: bv8, j: nat): bv8
    requires j <= 8
  {
    b & [0x00, 0x01, 0x03, 0x07, 0x0f, 0x1f, 0x3f, 0x7f, 0xff][j]
  }

  lemma BelowNext(b: bv8, j: nat)
    requires j < 8
    ensures Below(b, j + 1) == Below(b, j) || Below(b, j + 1) == XorByte(Below(b, j), Power(j))
  {
    hide Below, XorByte, Power;
    EachBit(b);
  }

  lemma EachBit(b: bv8)
    ensures Below(b, 1) == Below(b, 0) || Below(b, 1) == XorByte(Below(b, 0), Power(0))
    ensures Below(b, 2) == Below(b, 1) || Below(b, 2) == XorByte(Below(b, 1), Power(1))
    ensures Below(b, 3) == Below(b, 2) || Below(b, 3) == XorByte(Below(b, 2), Power(2))
    ensures Below(b, 4) == Below(b, 3) || Below(b, 4) == XorByte(Below(b, 3), Power(3))
    ensures Below(b, 5) == Below(b, 4) || Below(b, 5) == XorByte(Below(b, 4), Power(4))
    ensures Below(b, 6) == Below(b, 5) || Below(b, 6) == XorByte(Below(b, 5), Power(5))
    ensures Below(b, 7) == Below(b, 6) || Below(b, 7) == XorByte(Below(b, 6), Power(6))
    ensures Below(b, 8) == Below(b, 7) || Below(b, 8) == XorByte(Below(b, 7), Power(7))
  {}

  lemma {:induction false} LinearAgree(t: bv8 -> bv32, k: nat, b: bv8, j: nat)
    requires k < 8 && j <= 8 && Linear(t)
    requires forall i | 0 <= i < 8 :: t(Power(i)) == PowerEntries(k)[i]
    ensures t(Below(b, j)) == Table(k, Below(b, j))
  {
    hide Table, Xor, XorByte, PowerEntries, Power, Below;
    if j == 0 {
      BelowNone(b);
      assert t(XorByte(0, 0)) == Xor(t(0), t(0));
      XorZero(t(0));
      TableLinear(k, 0, 0);
      XorZero(Table(k, 0));
    } else {
      LinearAgree(t, k, b, j - 1);
      BelowNext(b, j - 1);
      PowersAreListed(k, j - 1);
      TableLinear(k, Below(b, j - 1), Power(j - 1));
      assert t(XorByte(Below(b, j - 1), Power(j - 1))) == Xor(t(Below(b, j - 1)), t(Power(j - 1)));
    }
  }

  lemma BelowNone(b: bv8)
    ensures Below(b, 0) == 0 == XorByte(0, 0)
  {}

  lemma BelowAll(b: bv8)
    ensures Below(b, 8) == b
  {}

  /** A linear table is pinned by those entries: one that has the source's eight entries
      for table k agrees with Table(k) at all 256 positions. */
  lemma TablePinned(t: bv8 -> bv32, k: nat, b: bv8)
    requires k < 8 && Linear(t)
    requires forall i | 0 <= i < 8 :: t(Power(i)) == PowerEntries(k)[i]
    ensures t(b) == Table(k, b)
  {
    hide Table, PowerEntries, Power, Linear, Below;
    LinearAgree(t, k, b, 8);
    BelowAll(b);
  }

  // ---- one byte and one slice through the tables ----

  function Byte0(c: bv32): bv8 { (c & 0xff) as bv8 }
  function Byte1(c: bv32): bv8 { ((c >> 8) & 0xff) as bv8 }
  function Byte2(c: bv32): bv8 { ((c >> 16) & 0xff) as bv8 }
  function Byte3(c: bv32): bv8 { ((c >> 24) & 0xff) as bv8 }

  /** crc = o32[crc.b[0] ^ byte] ^ (crc >> 8) */
  function TableStep(c: bv32, b: bv8): bv32 {
    Xor(Table(0, XorByte(Byte0(c), b)), c >> 8)
  }

  lemma LowByteOfXor(c: bv32, b: bv8)
    ensures Xor(c, Wide(b)) & 0xff == Wide(XorByte(Byte0(c), b))
    ensures Xor(c, Wide(b)) >> 8 == c >> 8
  {}

  lemma TableStepIsRegister(c: bv32, b: bv8)
    ensures TableStep(c, b) == Register(c, [b])
  {
    hide Steps, Xor, Wide, Byte0, XorByte;
    RegisterOne(c, b);
    LowByteOfXor(c, b);
    ByteStep(Xor(c, Wide(b)));
  }

  /** The 8-byte body of the sliced loops, in the order the source XORs its eight lookups. */
  function SliceStep(c: bv32, d0: bv8, d1: bv8, d2: bv8, d3: bv8,
                     d4: bv8, d5: bv8, d6: bv8, d7: bv8): bv32 {
    var x := Xor(c, LeWord(d0, d1, d2, d3));
    Xor(Xor(Xor(Xor(Xor(Xor(Xor(
      Table(7, Byte0(x)), Table(6, Byte1(x))), Table(5, Byte2(x))), Table(4, Byte3(x))),
      Table(3, d4)), Table(2, d5)), Table(1, d6)), Table(0, d7))
  }

  lemma BytesOfWord(x: bv32)
    ensures x == LeWord(Byte0(x), Byte1(x), Byte2(x), Byte3(x))
  {}

  /** Slicing by 8 is refinement: one slice is eight byte steps of the register. */
  lemma SliceStepIsRegister(c: bv32, d0: bv8, d1: bv8, d2: bv8, d3: bv8,
                            d4: bv8, d5: bv8, d6: bv8, d7: bv8)
    ensures SliceStep(c, d0, d1, d2, d3, d4, d5, d6, d7)
         == Register(c, [d0, d1, d2, d3, d4, d5, d6, d7])
  {
    hide Steps, Xor, Wide, LeWord, Byte0, Byte1, Byte2, Byte3, Register;
    var x := Xor(c, LeWord(d0, d1, d2, d3));
    var b0, b1, b2, b3 := Byte0(x), Byte1(x), Byte2(x), Byte3(x);
    var y := Register(c, [d0, d1, d2, d3]);
    assert Register(c, [d0, d1, d2, d3, d4, d5, d6, d7]) == Register(y, [d4, d5, d6, d7]) by {
      RegisterAppend(c, [d0, d1, d2, d3], [d4, d5, d6, d7]);
      assert [d0, d1, d2, d3] + [d4, d5, d6, d7] == [d0, d1, d2, d3, d4, d5, d6, d7];
    }
    RegisterFour(y, d4, d5, d6, d7);
    assert Steps(32, y) == Steps(64, x) by {
      RegisterWord(c, d0, d1, d2, d3);
      StepsAdd(32, 32, x);
    }
    BytesOfWord(x);
    StepsWord(40, b0, b1, b2, b3);
  }
}

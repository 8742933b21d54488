/** The CRC-32 register of section 3.2.9 of IEEE 802.3, bit by bit, and its algebra over
    GF(2). Every faster form of the checksum is proved against this module. The algebraic
    proofs hide the definitions of Xor and Step: they use linearity, never the bits. */
module Crc32 {

  const POLY_LE: bv32 := 0xedb88320
  const SEED: bv32 := 0xffffffff

  function Xor(a: bv32, b: bv32): bv32 {
    a ^ b
  }

  /** One clock of the bit-serial register, least significant bit first. */
  function Step(c: bv32): bv32 {
    if c & 1 == 1 then (c >> 1) ^ POLY_LE else c >> 1
  }

  function Steps(n: nat, c: bv32): bv32 {
    if n == 0 then c else Steps(n - 1, Step(c))
  }

  function Wide(b: bv8): bv32 {
    b as bv32
  }

  /** The register after consuming `data`, starting from `c`. */
  function Register(c: bv32, data: seq<bv8>): bv32
    decreases |data|
  {
    if data == [] then c else Register(Steps(8, Xor(c, Wide(data[0]))), data[1..])
  }

  // ---- linearity and injectivity of the clock ----

  lemma XorBits(a: bv32, b: bv32)
    ensures (a ^ b) & 1 == (a & 1) ^ (b & 1)
    ensures (a ^ b) >> 1 == (a >> 1) ^ (b >> 1)
  {}

  lemma LowBit(a: bv32)
    ensures a & 1 == 0 || a & 1 == 1
  {}

  lemma XorShuffle(a: bv32, b: bv32, p: bv32)
    ensures (a ^ b) ^ p == (a ^ p) ^ b == a ^ (b ^ p)
    ensures a ^ b == (a ^ p) ^ (b ^ p)
  {}

  lemma XorAssoc(a: bv32, b: bv32, p: bv32)
    ensures Xor(Xor(a, b), p) == Xor(a, Xor(b, p))
  {}

  lemma XorCommutes(a: bv32, b: bv32)
    ensures Xor(a, b) == Xor(b, a)
  {}

  lemma XorCancel(a: bv32, b: bv32, p: bv32)
    ensures Xor(a, p) == Xor(b, p) <==> a == b
  {}

  lemma XorZero(a: bv32)
    ensures Xor(0, a) == a == Xor(a, 0)
    ensures Xor(a, a) == 0
  {}

  lemma StepLinearBits(a: bv32, b: bv32)
    ensures Step(a ^ b) == Step(a) ^ Step(b)
  {
    XorBits(a, b);
    LowBit(a);
    LowBit(b);
    XorShuffle(a >> 1, b >> 1, POLY_LE);
  }

  lemma StepLinear(a: bv32, b: bv32)
    ensures Step(Xor(a, b)) == Xor(Step(a), Step(b))
  {
    hide Step;
    StepLinearBits(a, b);
  }

  lemma StepInjective(a: bv32, b: bv32)
    ensures Step(a) == Step(b) ==> a == b
  {}

  lemma {:induction false} StepsLinear(n: nat, a: bv32, b: bv32)
    ensures Steps(n, Xor(a, b)) == Xor(Steps(n, a), Steps(n, b))
  {
    hide Xor, Step;
    if n > 0 {
      StepLinear(a, b);
      StepsLinear(n - 1, Step(a), Step(b));
    }
  }

  lemma {:induction false} StepsInjective(n: nat, a: bv32, b: bv32)
    ensures Steps(n, a) == Steps(n, b) <==> a == b
  {
    hide Step;
    if n > 0 {
      StepInjective(a, b);
      StepsInjective(n - 1, Step(a), Step(b));
    }
  }

  lemma {:induction false} StepsAdd(m: nat, n: nat, c: bv32)
    ensures Steps(m + n, c) == Steps(n, Steps(m, c))
  {
    hide Step;
    if m > 0 {
      StepsAdd(m - 1, n, Step(c));
    }
  }

  // ---- shifting whole bytes ----

  function Half(c: bv32): bv32 { c >> 1 }
  predicate Even(c: bv32) { c & 1 == 0 }

  lemma StepEven(c: bv32)
    ensures Even(c) ==> Step(c) == Half(c)
  {}

  lemma HalfFour(c: bv32)
    ensures Half(Half(Half(Half(c)))) == c >> 4
    ensures c & 0xf == 0 ==> Even(c) && Even(Half(c)) && Even(Half(Half(c))) && Even(Half(Half(Half(c))))
  {}

  lemma ShiftOut4(c: bv32)
    requires c & 0xf == 0
    ensures Step(Step(Step(Step(c)))) == c >> 4
  {}

  /** Eight clocks of a word whose low byte is clear only shift it. */
  lemma ShiftOut(c: bv32)
    requires c & 0xff == 0
    ensures Steps(8, c) == c >> 8
  {
    hide Step, Steps;
    ShiftOut4(c);
    ShiftOut4(c >> 4);
    assert c & 0xf == 0 && (c >> 4) & 0xf == 0 && (c >> 4) >> 4 == c >> 8;
    Unroll8(c);
  }

  lemma Unroll8(c: bv32)
    ensures Steps(8, c) == Step(Step(Step(Step(Step(Step(Step(Step(c))))))))
  {
    hide Step;
    var c2 := Step(Step(c));
    var c4 := Step(Step(c2));
    var c6 := Step(Step(c4));
    assert Steps(8, c) == Steps(7, Step(c)) == Steps(6, c2);
    assert Steps(6, c2) == Steps(5, Step(c2)) == Steps(4, c4);
    assert Steps(4, c4) == Steps(3, Step(c4)) == Steps(2, c6);
    assert Steps(2, c6) == Steps(1, Step(c6)) == Steps(0, Step(Step(c6)));
  }

  lemma SplitLowByte(c: bv32)
    ensures c == Xor(c & 0xff, c & 0xffffff00)
    ensures (c & 0xffffff00) & 0xff == 0
    ensures (c & 0xffffff00) >> 8 == c >> 8
  {}

  /** The byte-at-a-time identity behind every table form. */
  lemma ByteStep(c: bv32)
    ensures Steps(8, c) == Xor(Steps(8, c & 0xff), c >> 8)
  {
    hide Xor, Step, Steps;
    SplitLowByte(c);
    StepsLinear(8, c & 0xff, c & 0xffffff00);
    ShiftOut(c & 0xffffff00);
  }

  // ---- the register over concatenated buffers ----

  lemma {:induction false} RegisterAppend(c: bv32, a: seq<bv8>, b: seq<bv8>)
    ensures Register(c, a + b) == Register(Register(c, a), b)
    decreases |a|
  {
    hide Xor, Wide, Steps;
    if a == [] {
      assert a + b == b;
    } else {
      assert (a + b)[1..] == a[1..] + b;
      RegisterAppend(Steps(8, Xor(c, Wide(a[0]))), a[1..], b);
    }
  }

  lemma RegisterOne(c: bv32, b: bv8)
    ensures Register(c, [b]) == Steps(8, Xor(c, Wide(b)))
  {}

  lemma RegisterCons(c: bv32, b: bv8, rest: seq<bv8>)
    ensures Register(c, [b] + rest) == Register(Steps(8, Xor(c, Wide(b))), rest)
  {}

  lemma RegisterSnoc(c: bv32, a: seq<bv8>, b: bv8)
    ensures Register(c, a + [b]) == Steps(8, Xor(Register(c, a), Wide(b)))
  {
    hide Xor, Wide, Steps;
    RegisterAppend(c, a, [b]);
    RegisterOne(Register(c, a), b);
  }

  lemma {:induction false} RegisterInjective(c: bv32, d: bv32, data: seq<bv8>)
    ensures Register(c, data) == Register(d, data) <==> c == d
    decreases |data|
  {
    hide Xor, Wide, Steps;
    if data != [] {
      var w := Wide(data[0]);
      XorCancel(c, d, w);
      StepsInjective(8, Xor(c, w), Xor(d, w));
      RegisterInjective(Steps(8, Xor(c, w)), Steps(8, Xor(d, w)), data[1..]);
    }
  }

  // ---- whole words ----

  function At1(b: bv8): bv32 { b as bv32 << 8 }
  function At2(b: bv8): bv32 { b as bv32 << 16 }
  function At3(b: bv8): bv32 { b as bv32 << 24 }

  /** The word a little-endian host reads from four bytes. */
  function LeWord(b0: bv8, b1: bv8, b2: bv8, b3: bv8): bv32 {
    Xor(Xor(Xor(Wide(b0), At1(b1)), At2(b2)), At3(b3))
  }

  lemma ShiftDown(b: bv8)
    ensures Steps(8, At1(b)) == Wide(b)
    ensures Steps(8, At2(b)) == At1(b)
    ensures Steps(8, At3(b)) == At2(b)
  {
    hide Steps, Step;
    ShiftOut(At1(b));
    ShiftOut(At2(b));
    ShiftOut(At3(b));
    assert At1(b) >> 8 == Wide(b);
    assert At2(b) >> 8 == At1(b);
    assert At3(b) >> 8 == At2(b);
  }

  lemma ShiftDownMany(n: nat, b: bv8)
    ensures Steps(n + 8, At1(b)) == Steps(n, Wide(b))
    ensures Steps(n + 16, At2(b)) == Steps(n, Wide(b))
    ensures Steps(n + 24, At3(b)) == Steps(n, Wide(b))
  {
    hide Steps, Step, Wide, At1, At2, At3;
    ShiftDown(b);
    StepsAdd(8, n, At1(b));
    StepsAdd(8, n + 8, At2(b));
    StepsAdd(8, n + 16, At3(b));
  }

  /** Clocking a word is the same as clocking its four bytes, each from where it stands. */
  lemma StepsWord(n: nat, b0: bv8, b1: bv8, b2: bv8, b3: bv8)
    ensures Steps(n + 24, LeWord(b0, b1, b2, b3))
         == Xor(Xor(Xor(Steps(n + 24, Wide(b0)), Steps(n + 16, Wide(b1))),
                    Steps(n + 8, Wide(b2))), Steps(n, Wide(b3)))
  {
    hide Steps, Step, Wide, At1, At2, At3, Xor;
    StepsLinear(n + 24, Xor(Xor(Wide(b0), At1(b1)), At2(b2)), At3(b3));
    StepsLinear(n + 24, Xor(Wide(b0), At1(b1)), At2(b2));
    StepsLinear(n + 24, Wide(b0), At1(b1));
    ShiftDownMany(n + 16, b1);
    ShiftDownMany(n + 8, b2);
    ShiftDownMany(n, b3);
  }

  /** Four bytes, unrolled: each byte is clocked once for every later byte and its own. */
  lemma RegisterFour(c: bv32, b0: bv8, b1: bv8, b2: bv8, b3: bv8)
    ensures Register(c, [b0, b1, b2, b3])
         == Xor(Xor(Xor(Xor(Steps(32, c), Steps(32, Wide(b0))), Steps(24, Wide(b1))),
                    Steps(16, Wide(b2))), Steps(8, Wide(b3)))
  {
    hide Steps, Step, Wide, Xor, Register;
    var r1 := Xor(Steps(8, c), Steps(8, Wide(b0)));
    var r2 := Xor(Steps(8, r1), Steps(8, Wide(b1)));
    var r3 := Xor(Steps(8, r2), Steps(8, Wide(b2)));
    RegisterChain(c, b0, b1, b2, b3);
    StepsLinear(8, c, Wide(b0));
    StepsLinear(8, r1, Wide(b1));
    StepsLinear(8, r2, Wide(b2));
    StepsLinear(8, r3, Wide(b3));
    StepsLinear(24, Steps(8, c), Steps(8, Wide(b0)));
    StepsLinear(16, Steps(8, r1), Steps(8, Wide(b1)));
    StepsLinear(8, Steps(8, r2), Steps(8, Wide(b2)));
    StepsAdd(8, 24, c);
    StepsAdd(8, 24, Wide(b0));
    StepsAdd(8, 16, r1);
    StepsAdd(8, 16, Wide(b1));
    StepsAdd(8, 8, r2);
    StepsAdd(8, 8, Wide(b2));
  }

  lemma RegisterChain(c: bv32, b0: bv8, b1: bv8, b2: bv8, b3: bv8)
    ensures Register(c, [b0, b1, b2, b3])
         == Steps(8, Xor(Steps(8, Xor(Steps(8, Xor(Steps(8, Xor(c, Wide(b0))), Wide(b1))), Wide(b2))), Wide(b3)))
  {
    hide Steps, Wide, Xor, Register;
    var c1 := Steps(8, Xor(c, Wide(b0)));
    var c2 := Steps(8, Xor(c1, Wide(b1)));
    var c3 := Steps(8, Xor(c2, Wide(b2)));
    assert Register(c, [b0, b1, b2, b3]) == Register(c1, [b1, b2, b3]) by {
      RegisterCons(c, b0, [b1, b2, b3]);
      assert [b0] + [b1, b2, b3] == [b0, b1, b2, b3];
    }
    assert Register(c1, [b1, b2, b3]) == Register(c2, [b2, b3]) by {
      RegisterCons(c1, b1, [b2, b3]);
      assert [b1] + [b2, b3] == [b1, b2, b3];
    }
    assert Register(c2, [b2, b3]) == Register(c3, [b3]) by {
      RegisterCons(c2, b2, [b3]);
      assert [b2] + [b3] == [b2, b3];
    }
    RegisterOne(c3, b3);
  }

  /** Four bytes at a time: XOR the little-endian word in, then clock 32 times. */
  lemma RegisterWord(c: bv32, b0: bv8, b1: bv8, b2: bv8, b3: bv8)
    ensures Register(c, [b0, b1, b2, b3]) == Steps(32, Xor(c, LeWord(b0, b1, b2, b3)))
  {
    hide Steps, Step, Wide, At1, At2, At3, Xor, Register, LeWord;
    RegisterFour(c, b0, b1, b2, b3);
    StepsWord(8, b0, b1, b2, b3);
    StepsLinear(32, c, LeWord(b0, b1, b2, b3));
    XorFive(Steps(32, c), Steps(32, Wide(b0)), Steps(24, Wide(b1)), Steps(16, Wide(b2)), Steps(8, Wide(b3)));
  }

  lemma XorFive(a: bv32, b: bv32, c: bv32, d: bv32, e: bv32)
    ensures Xor(Xor(Xor(Xor(a, b), c), d), e) == Xor(a, Xor(Xor(Xor(b, c), d), e))
  {
    hide Xor;
    XorAssoc(a, b, c);
    XorAssoc(a, Xor(b, c), d);
    XorAssoc(a, Xor(Xor(b, c), d), e);
  }
}

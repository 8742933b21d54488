/** The nibble-table and the bit-serial big-endian forms of the Ethernet checksum. */
module EtherCrc32 {
  import opened Crc32
  import opened CrcBits

  const CRCTAB: seq<bv32> := [
    0x00000000, 0x1db71064, 0x3b6e20c8, 0x26d930ac,
    0x76dc4190, 0x6b6b51f4, 0x4db26158, 0x5005713c,
    0xedb88320, 0xf00f9344, 0xd6d6a3e8, 0xcb61b38c,
    0x9b64c2b0, 0x86d3d2d4, 0xa00ae278, 0xbdbdf21c]

  const POLY_BE: bv32 := 0x04c11db6

  // ---- the nibble table ----

  function LowNibble(c: bv32): (n: nat)
    ensures n < 16
  {
    (c & 0xf) as nat
  }

  function Shr4(c: bv32): bv32 { c >> 4 }
  function Low4(c: bv32): bv32 { c & 0xf }
  function High28(c: bv32): bv32 { c & 0xfffffff0 }

  function NibbleStep(c: bv32): bv32 {
    Xor(Shr4(c), CRCTAB[LowNibble(c)])
  }

  lemma NibbleEntries()
    ensures Steps(4, 0) == 0x00000000 && Steps(4, 1) == 0x1db71064
    ensures Steps(4, 2) == 0x3b6e20c8 && Steps(4, 3) == 0x26d930ac
    ensures Steps(4, 4) == 0x76dc4190 && Steps(4, 5) == 0x6b6b51f4
    ensures Steps(4, 6) == 0x4db26158 && Steps(4, 7) == 0x5005713c
    ensures Steps(4, 8) == 0xedb88320 && Steps(4, 9) == 0xf00f9344
    ensures Steps(4, 10) == 0xd6d6a3e8 && Steps(4, 11) == 0xcb61b38c
    ensures Steps(4, 12) == 0x9b64c2b0 && Steps(4, 13) == 0x86d3d2d4
    ensures Steps(4, 14) == 0xa00ae278 && Steps(4, 15) == 0xbdbdf21c
  {}

  lemma NibbleEntry(c: bv32)
    ensures Steps(4, Low4(c)) == CRCTAB[LowNibble(c)]
  {
    hide Steps;
    NibbleEntries();
    NibbleCases(c);
  }

  lemma NibbleCases(c: bv32)
    ensures 0 <= LowNibble(c) < 16
    ensures c & 0xf == [0, 1, 2, 3, 4, 5, 6, 7, 8, 9, 10, 11, 12, 13, 14, 15][LowNibble(c)]
  {}

  /** One nibble lookup is four clocks of the register. */
  lemma NibbleStepIsSteps(c: bv32)
    ensures NibbleStep(c) == Steps(4, c)
  {
    hide Xor, Steps, Shr4, Low4, High28, LowNibble;
    NibbleEntry(c);
    SplitNibble(c);
    StepsLinear(4, Low4(c), High28(c));
    XorCommutes(Shr4(c), Steps(4, Low4(c)));
  }

  lemma NibbleParts(c: bv32)
    ensures c == Xor(Low4(c), High28(c))
    ensures High28(c) & 0xf == 0
    ensures High28(c) >> 4 == Shr4(c)
  {}

  lemma SplitNibble(c: bv32)
    ensures c == Xor(Low4(c), High28(c))
    ensures Steps(4, High28(c)) == Shr4(c)
  {
    hide Steps, Step, Xor, Low4, High28, Shr4;
    NibbleParts(c);
    ShiftOut4(High28(c));
    Unroll4(High28(c));
  }

  lemma Unroll4(c: bv32)
    ensures Steps(4, c) == Step(Step(Step(Step(c))))
  {
    hide Step;
    var c2 := Step(Step(c));
    assert Steps(4, c) == Steps(3, Step(c)) == Steps(2, c2);
    assert Steps(2, c2) == Steps(1, Step(c2)) == Steps(0, Step(Step(c2)));
  }

  lemma NibblePair(c: bv32, b: bv8)
    ensures NibbleStep(NibbleStep(Xor(c, Wide(b)))) == Steps(8, Xor(c, Wide(b)))
  {
    hide Xor, Steps, Wide;
    var x := Xor(c, Wide(b));
    NibbleStepIsSteps(x);
    NibbleStepIsSteps(Steps(4, x));
    StepsAdd(4, 4, x);
  }

  /** One more byte of the buffer through the register. */
  lemma RegisterNext(c: bv32, data: seq<bv8>, n: nat)
    requires n < |data|
    ensures Steps(8, Xor(Register(c, data[..n]), Wide(data[n]))) == Register(c, data[..n + 1])
  {
    hide Steps, Xor, Wide, Register;
    assert data[..n + 1] == data[..n] + [data[n]];
    RegisterSnoc(c, data[..n], data[n]);
  }

  method EtherCrc32LePartial(buf: seq<bv8>, crcIn: bv32) returns (crc: bv32)
    ensures crc == Register(crcIn, buf)
  {
    hide Steps, Xor, Wide, NibbleStep;
    crc := crcIn;
    for i := 0 to |buf|
      invariant crc == Register(crcIn, buf[..i])
    {
      hide Register;
      RegisterNext(crcIn, buf, i);
      NibblePair(crc, buf[i]);
      crc := Xor(crc, Wide(buf[i]));
      crc := NibbleStep(crc);
      crc := NibbleStep(crc);
    }
    assert buf[..|buf|] == buf;
  }

  method EtherCrc32Le(buf: seq<bv8>) returns (crc: bv32)
    ensures crc == Register(SEED, buf)
  {
    crc := EtherCrc32LePartial(buf, SEED);
  }

  // ---- the bit-serial big-endian form ----

  /** One bit of the inner loop of the big-endian form. */
  function BeStep(c: bv32, data: bv8): bv32 {
    var carry: bv32 := (if c & 0x80000000 != 0 then 1 else 0) ^ (data & 0x01) as bv32;
    var shifted := c << 1;
    if carry != 0 then (shifted ^ POLY_BE) | carry else shifted
  }

  /** The low n bits of one byte, lowest first. */
  function BeBits(n: nat, c: bv32, data: bv8): bv32 {
    if n == 0 then c else BeBits(n - 1, BeStep(c, data), data >> 1)
  }

  function BeRegister(c: bv32, data: seq<bv8>): bv32
    decreases |data|
  {
    if data == [] then c else BeRegister(BeBits(8, c, data[0]), data[1..])
  }

  lemma {:induction false} BeBitsNext(k: nat, n: nat, c: bv32, data: bv8)
    ensures BeBits(k + n, c, data) == BeBits(n, BeBits(k, c, data), Shifted(k, data))
  {
    hide BeStep;
    if k > 0 {
      BeBitsNext(k - 1, n, BeStep(c, data), data >> 1);
    }
  }

  function Shifted(k: nat, data: bv8): bv8 {
    if k == 0 then data else Shifted(k - 1, data >> 1)
  }

  lemma {:induction false} ShiftedNext(k: nat, data: bv8)
    ensures Shifted(k + 1, data) == Shifted(k, data) >> 1
  {
    if k > 0 {
      ShiftedNext(k - 1, data >> 1);
    }
  }

  lemma {:induction false} BeRegisterSnoc(c: bv32, a: seq<bv8>, b: bv8)
    ensures BeRegister(c, a + [b]) == BeBits(8, BeRegister(c, a), b)
    decreases |a|
  {
    hide BeBits;
    if a == [] {
      assert (a + [b])[1..] == [];
    } else {
      assert (a + [b])[1..] == a[1..] + [b];
      BeRegisterSnoc(BeBits(8, c, a[0]), a[1..], b);
    }
  }

  method EtherCrc32BePartial(buf: seq<bv8>, crcIn: bv32) returns (crc: bv32)
    ensures crc == BeRegister(crcIn, buf)
  {
    hide BeStep, BeBits;
    crc := crcIn;
    for i := 0 to |buf|
      invariant crc == BeRegister(crcIn, buf[..i])
    {
      hide BeRegister;
      var data := buf[i];
      ghost var before := crc;
      BeBitsNone(before, buf[i]);
      for bit := 0 to 8
        invariant crc == BeBits(bit, before, buf[i])
        invariant data == Shifted(bit, buf[i])
      {
        BeBitsNext(bit, 1, before, buf[i]);
        BeBitsOne(crc, data);
        ShiftedNext(bit, buf[i]);
        crc := BeStep(crc, data);
        data := data >> 1;
      }
      assert buf[..i + 1] == buf[..i] + [buf[i]];
      BeRegisterSnoc(crcIn, buf[..i], buf[i]);
    }
    assert buf[..|buf|] == buf;
  }

  lemma BeBitsNone(c: bv32, data: bv8)
    ensures BeBits(0, c, data) == c
  {}

  lemma BeBitsOne(c: bv32, data: bv8)
    ensures BeBits(1, c, data) == BeStep(c, data)
  {}

  // ---- reflection ----

  /** Reverses the 32 bits by swapping ever larger groups. */
  function Reverse(x: bv32): bv32 {
    var a := ((x & 0x55555555) << 1) | ((x >> 1) & 0x55555555);
    var b := ((a & 0x33333333) << 2) | ((a >> 2) & 0x33333333);
    var c := ((b & 0x0f0f0f0f) << 4) | ((b >> 4) & 0x0f0f0f0f);
    var d := ((c & 0x00ff00ff) << 8) | ((c >> 8) & 0x00ff00ff);
    (d << 16) | (d >> 16)
  }

  lemma ReverseInvolutive(x: bv32)
    ensures Reverse(Reverse(x)) == x
  {}

  lemma ReverseLinear(a: bv32, b: bv32)
    ensures Reverse(a ^ b) == Reverse(a) ^ Reverse(b)
  {}

  predicate Top(c: bv32) { c & 0x80000000 != 0 }

  lemma ReverseShift(c: bv32)
    ensures Reverse(Twice(c)) == Half(Reverse(c))
    ensures Odd(Reverse(c)) == Top(c)
  {}

  /** The bit i places above the lowest. */
  predicate BitFromBelow(w: bv32, i: nat)
    decreases i
  {
    if i == 0 then Odd(w) else BitFromBelow(Half(w), i - 1)
  }

  /** The bit i places below the highest. */
  predicate BitFromTop(w: bv32, i: nat)
    decreases i
  {
    if i == 0 then Top(w) else BitFromTop(Twice(w), i - 1)
  }

  /** Counted from below, the reversal has the bits the word has counted from the top. */
  lemma {:induction false} ReverseIsReversal(x: bv32, i: nat)
    ensures BitFromBelow(Reverse(x), i) == BitFromTop(x, i)
    decreases i
  {
    hide Reverse, Half, Twice, Odd, Top;
    ReverseShift(x);
    if i > 0 {
      ReverseIsReversal(Twice(x), i - 1);
    }
  }

  /** POLY_BE with the carry bit in place is POLY_LE in the mirror. */
  lemma ReversePoly(a: bv32)
    ensures Reverse(Xor(a, 0x04c11db7)) == Xor(Reverse(a), POLY_LE)
  {
    hide Reverse;
    ReverseLinear(a, 0x04c11db7);
    ReversedPoly();
  }

  lemma ReversedPoly()
    ensures Reverse(0x04c11db7) == POLY_LE
  {}

  lemma BeStepCases(c: bv32, data: bv8)
    ensures BeStep(c, data)
         == if Top(c) != Odd(Wide(data)) then Xor(Twice(c), 0x04c11db7) else Twice(c)
  {}

  lemma StepIs(r: bv32)
    ensures Step(r) == if Odd(r) then Xor(Half(r), POLY_LE) else Half(r)
  {}

  lemma FlipChangesLow(r: bv32)
    ensures Odd(Xor(r, 1)) == !Odd(r)
  {}

  lemma FlipKeepsRest(r: bv32)
    ensures Half(Xor(r, 1)) == Half(r)
  {}

  lemma StepCases(r: bv32, b: bool)
    ensures Step(Xor(r, Bit(b))) == if Odd(r) != b then Xor(Half(r), POLY_LE) else Half(r)
  {
    hide Step, Xor, Odd, Half;
    if b {
      FlipChangesLow(r);
      FlipKeepsRest(r);
    } else {
      XorZero(r);
    }
    StepIs(Xor(r, Bit(b)));
  }

  /** One big-endian step, seen in the mirror, is one step of the register. */
  lemma BeStepMirrored(c: bv32, data: bv8)
    ensures Reverse(BeStep(c, data)) == Step(Xor(Reverse(c), Bit(Odd(Wide(data)))))
  {
    hide Reverse, Xor, Bit, Odd, Wide, Top, Twice, Half, Step, BeStep;
    ReverseShift(c);
    BeStepCases(c, data);
    StepCases(Reverse(c), Odd(Wide(data)));
    ReversePoly(Twice(c));
  }

  lemma {:induction false} BeBitsMirrored(n: nat, c: bv32, data: bv8)
    ensures Reverse(BeBits(n, c, data)) == BitFold(Reverse(c), BitsOf(Wide(data), n))
    decreases n
  {
    hide Reverse, BeStep, Step, Xor, Bit, Odd, Wide, Half;
    if n > 0 {
      BeStepMirrored(c, data);
      BeBitsMirrored(n - 1, BeStep(c, data), data >> 1);
      WideHalf(data);
      assert BitsOf(Wide(data), n)[1..] == BitsOf(Half(Wide(data)), n - 1);
    }
  }

  lemma WideHalf(data: bv8)
    ensures Wide(data >> 1) == Half(Wide(data))
  {}

  /** The two bit orders compute mirror images of each other, on every buffer and seed. */
  lemma {:induction false} BigEndianMirrorsLittle(c: bv32, data: seq<bv8>)
    ensures Reverse(BeRegister(c, data)) == Register(Reverse(c), data)
    decreases |data|
  {
    hide Reverse, Steps, Xor, Wide, BeBits, BitFold, BitsOf, Fits;
    if data != [] {
      var w := Wide(data[0]);
      BeBitsMirrored(8, c, data[0]);
      ByteFits(data[0]);
      FoldWord(Reverse(c), w, 8);
      BigEndianMirrorsLittle(BeBits(8, c, data[0]), data[1..]);
    }
  }

  /** The checksum of a scattered buffer: each segment continues from the last one. */
  lemma PartialResultsChain(c: bv32, a: seq<bv8>, b: seq<bv8>)
    ensures BeRegister(c, a + b) == BeRegister(BeRegister(c, a), b)
  {
    hide Reverse, Register, BeRegister;
    BigEndianMirrorsLittle(c, a + b);
    BigEndianMirrorsLittle(c, a);
    BigEndianMirrorsLittle(BeRegister(c, a), b);
    RegisterAppend(Reverse(c), a, b);
    ReverseInvolutive(BeRegister(c, a + b));
    ReverseInvolutive(BeRegister(BeRegister(c, a), b));
  }
}

/** The register as a stream of bits, and the error bursts it always notices. */
module CrcBits {
  import opened Crc32

  function Bit(b: bool): bv32 {
    if b then 1 else 0
  }

  /** The register after shifting in one bit at a time. */
  function BitFold(c: bv32, bits: seq<bool>): bv32
    decreases |bits|
  {
    if bits == [] then c else BitFold(Step(Xor(c, Bit(bits[0]))), bits[1..])
  }

  predicate Odd(w: bv32) { w & 1 == 1 }

  /** The low n bits of w, lowest first. */
  function BitsOf(w: bv32, n: nat): (r: seq<bool>)
    ensures |r| == n
  {
    if n == 0 then [] else [Odd(w)] + BitsOf(Half(w), n - 1)
  }

  function Twice(w: bv32): bv32 { w << 1 }

  /** w has no bits at or above position n. */
  predicate Fits(w: bv32, n: nat) {
    if n == 0 then w == 0 else Fits(Half(w), n - 1)
  }

  /** The buffer as the wire sends it: byte by byte, lowest bit first. */
  function Bits(data: seq<bv8>): (r: seq<bool>)
    ensures |r| == 8 * |data|
    decreases |data|
  {
    if data == [] then [] else BitsOf(Wide(data[0]), 8) + Bits(data[1..])
  }

  // ---- bits and words ----

  lemma {:induction false} BitFoldAppend(c: bv32, a: seq<bool>, b: seq<bool>)
    ensures BitFold(c, a + b) == BitFold(BitFold(c, a), b)
    decreases |a|
  {
    hide Step, Xor, Bit;
    if a == [] {
      assert a + b == b;
    } else {
      assert (a + b)[1..] == a[1..] + b;
      BitFoldAppend(Step(Xor(c, Bit(a[0]))), a[1..], b);
    }
  }

  /** The lowest bit may enter now and the rest of the word one clock later. */
  lemma StepSplit(c: bv32, w: bv32)
    ensures Step(Xor(c, w)) == Xor(Step(Xor(c, Bit(Odd(w)))), Half(w))
  {
    hide Step, Xor, Half, Bit, Odd;
    var e := RestOf(w);
    LowAndRest(w);
    XorAssoc(c, Bit(Odd(w)), e);
    StepLinear(Xor(c, Bit(Odd(w))), e);
    StepEven(e);
  }

  function RestOf(w: bv32): bv32 { w & 0xfffffffe }

  lemma LowAndRest(w: bv32)
    ensures w == Xor(Bit(Odd(w)), RestOf(w))
    ensures Even(RestOf(w)) && Half(RestOf(w)) == Half(w)
  {}

  /** Shifting the bits of a word in one at a time is XORing the word in at once. */
  lemma {:induction false} FoldWord(c: bv32, w: bv32, n: nat)
    requires Fits(w, n)
    ensures BitFold(c, BitsOf(w, n)) == Steps(n, Xor(c, w))
    decreases n
  {
    hide Step, Xor, Half, Bit, Odd;
    if n == 0 {
      XorZero(c);
    } else {
      var c1 := Step(Xor(c, Bit(Odd(w))));
      assert BitsOf(w, n)[1..] == BitsOf(Half(w), n - 1);
      FoldWord(c1, Half(w), n - 1);
      StepSplit(c, w);
    }
  }

  function Nib(w: bv32): bv32 { w >> 4 }

  lemma FitsFour(w: bv32, n: nat)
    ensures Fits(w, n + 4) <==> Fits(Nib(w), n)
  {
    HalfFour(w);
    hide Half;
    var w2 := Half(Half(w));
    assert Fits(w, n + 4) == Fits(Half(w), n + 3) == Fits(w2, n + 2);
    assert Fits(w2, n + 2) == Fits(Half(w2), n + 1) == Fits(Half(Half(w2)), n);
  }

  lemma ByteFits(b: bv8)
    ensures Fits(Wide(b), 8)
  {
    hide Fits;
    FitsFour(Wide(b), 4);
    FitsFour(Nib(Wide(b)), 0);
    FitsNone(Nib(Nib(Wide(b))));
  }

  lemma FitsNone(w: bv32)
    ensures Fits(w, 0) <==> w == 0
  {}

  /** The byte register is the bit register over the bits on the wire. */
  lemma {:induction false} RegisterIsBitFold(c: bv32, data: seq<bv8>)
    ensures Register(c, data) == BitFold(c, Bits(data))
    decreases |data|
  {
    hide Steps, Step, Xor, Wide, Half, Bit, Odd;
    if data != [] {
      var b := data[0];
      ByteFits(b);
      FoldWord(c, Wide(b), 8);
      BitFoldAppend(c, BitsOf(Wide(b), 8), Bits(data[1..]));
      RegisterIsBitFold(Steps(8, Xor(c, Wide(b))), data[1..]);
    }
  }

  // ---- bursts ----

  /** The word whose low bits are the given ones. */
  function WordOf(bits: seq<bool>): bv32
    decreases |bits|
  {
    if bits == [] then 0 else Xor(Bit(bits[0]), Twice(WordOf(bits[1..])))
  }

  lemma {:induction false} FitsMore(w: bv32, n: nat, m: nat)
    requires n <= m && Fits(w, n)
    ensures Fits(w, m)
    decreases m
  {
    if m > 0 {
      HalfZero();
      hide Half;
      FitsMore(Half(w), if n == 0 then 0 else n - 1, m - 1);
    }
  }

  lemma HalfZero()
    ensures Half(0) == 0
  {}

  lemma FitsThree(w: bv32)
    ensures Fits(w, 3) <==> Half(Half(Half(w))) == 0
  {
    hide Half;
    var w1 := Half(w);
    assert Fits(w, 3) == Fits(w1, 2) == Fits(Half(w1), 1) == Fits(Half(Half(w1)), 0);
  }

  lemma TopBit(w: bv32)
    ensures Half(Half(Half(Nib(Nib(Nib(Nib(Nib(Nib(Nib(w)))))))))) == 0 ==> Half(Twice(w)) == w
  {}

  /** A word of at most 31 bits survives being doubled. */
  lemma DoubleHalves(w: bv32)
    requires Fits(w, 31)
    ensures Half(Twice(w)) == w
  {
    hide Half, Twice, Fits, Nib;
    FitsFour(w, 27);
    FitsFour(Nib(w), 23);
    FitsFour(Nib(Nib(w)), 19);
    FitsFour(Nib(Nib(Nib(w))), 15);
    FitsFour(Nib(Nib(Nib(Nib(w)))), 11);
    FitsFour(Nib(Nib(Nib(Nib(Nib(w))))), 7);
    FitsFour(Nib(Nib(Nib(Nib(Nib(Nib(w)))))), 3);
    FitsThree(Nib(Nib(Nib(Nib(Nib(Nib(Nib(w))))))));
    TopBit(w);
  }

  lemma LowBitOnTop(b: bool, w: bv32)
    ensures Odd(Xor(Bit(b), Twice(w))) == b
    ensures Half(Xor(Bit(b), Twice(w))) == Half(Twice(w))
  {}

  /** Up to 32 bits are exactly the bits of one word. */
  lemma {:induction false} WordOfBits(bits: seq<bool>)
    requires |bits| <= 32
    ensures Fits(WordOf(bits), |bits|)
    ensures BitsOf(WordOf(bits), |bits|) == bits
    decreases |bits|
  {
    if bits != [] {
      hide Half, Twice, Xor, Bit, Odd;
      var w := WordOf(bits[1..]);
      WordOfBits(bits[1..]);
      FitsMore(w, |bits| - 1, 31);
      DoubleHalves(w);
      LowBitOnTop(bits[0], w);
    }
  }

  /** Different short bursts, entering the same register, leave different registers. */
  lemma ShortStreamsDiffer(c: bv32, a: seq<bool>, b: seq<bool>)
    requires |a| == |b| <= 32 && a != b
    ensures BitFold(c, a) != BitFold(c, b)
  {
    hide BitFold, Steps, Xor, Fits, BitsOf, WordOf;
    var n, v, w := |a|, WordOf(a), WordOf(b);
    WordOfBits(a);
    WordOfBits(b);
    FoldWord(c, v, n);
    FoldWord(c, w, n);
    StepsInjective(n, Xor(c, v), Xor(c, w));
    XorCommutes(c, v);
    XorCommutes(c, w);
    XorCancel(v, w, c);
  }

  /** The register never forgets: equal input keeps different registers different. */
  lemma {:induction false} BitFoldInjective(c: bv32, d: bv32, bits: seq<bool>)
    ensures BitFold(c, bits) == BitFold(d, bits) <==> c == d
    decreases |bits|
  {
    hide Step, Xor, Bit;
    if bits != [] {
      var e := Bit(bits[0]);
      XorCancel(c, d, e);
      StepInjective(Xor(c, e), Xor(d, e));
      BitFoldInjective(Step(Xor(c, e)), Step(Xor(d, e)), bits[1..]);
    }
  }

  /** Two bit streams differ, and only inside the 32 bits from p on. */
  ghost predicate BurstAt(a: seq<bool>, b: seq<bool>, p: nat) {
    && |a| == |b| && a != b
    && forall i :: 0 <= i < |a| && (i < p || p + 32 <= i) ==> a[i] == b[i]
  }

  lemma BitBurstDetected(c: bv32, a: seq<bool>, b: seq<bool>, p: nat)
    requires BurstAt(a, b, p)
    ensures BitFold(c, a) != BitFold(c, b)
  {
    hide BitFold;
    var n := |a|;
    var lo := if p <= n then p else n;
    var hi := if p + 32 <= n then p + 32 else n;
    assert a == a[..lo] + a[lo..hi] + a[hi..];
    assert b == b[..lo] + b[lo..hi] + b[hi..];
    assert a[..lo] == b[..lo] && a[hi..] == b[hi..];
    assert a[lo..hi] != b[lo..hi];
    var c1 := BitFold(c, a[..lo]);
    BitFoldAppend(c, a[..lo] + a[lo..hi], a[hi..]);
    BitFoldAppend(c, b[..lo] + b[lo..hi], b[hi..]);
    BitFoldAppend(c, a[..lo], a[lo..hi]);
    BitFoldAppend(c, b[..lo], b[lo..hi]);
    ShortStreamsDiffer(c1, a[lo..hi], b[lo..hi]);
    BitFoldInjective(BitFold(c1, a[lo..hi]), BitFold(c1, b[lo..hi]), a[hi..]);
  }

  /** Every error burst of at most 32 bits, at any bit offset, changes the checksum. */
  lemma BurstDetected(c: bv32, x: seq<bv8>, y: seq<bv8>, p: nat)
    requires BurstAt(Bits(x), Bits(y), p)
    ensures Register(c, x) != Register(c, y)
  {
    RegisterIsBitFold(c, x);
    RegisterIsBitFold(c, y);
    BitBurstDetected(c, Bits(x), Bits(y), p);
  }
}

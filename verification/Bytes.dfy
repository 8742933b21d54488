/** Bytes and the integers laid out in them. */
module Bytes {

  type byte = b: int | 0 <= b < 256

  /** Network order. */
  function Be16(n: nat): (r: seq<byte>)
    requires n < 0x10000
    ensures |r| == 2
  {
    [n / 256, n % 256]
  }

  function FromBe16(s: seq<byte>): (n: nat)
    requires |s| == 2
    ensures n < 0x10000
  {
    s[0] as int * 256 + s[1] as int
  }

  function FromBe24(s: seq<byte>): (n: nat)
    requires |s| == 3
    ensures n < 0x1000000
  {
    s[0] as int * 0x10000 + s[1] as int * 256 + s[2] as int
  }

  function Be32(n: nat): (r: seq<byte>)
    requires n < 0x1_0000_0000
    ensures |r| == 4
  {
    Be16(n / 0x10000) + Be16(n % 0x10000)
  }

  function FromBe32(s: seq<byte>): (n: nat)
    requires |s| == 4
    ensures n < 0x1_0000_0000
  {
    FromBe16(s[..2]) * 0x10000 + FromBe16(s[2..])
  }

  lemma Be32RoundTrip(n: nat)
    requires n < 0x1_0000_0000
    ensures FromBe32(Be32(n)) == n
  {}

  /** The order of a little-endian host. */
  function Le32(n: nat): (r: seq<byte>)
    requires n < 0x1_0000_0000
    ensures |r| == 4
  {
    [n % 256, n / 256 % 256, n / 0x10000 % 256, n / 0x1000000]
  }

  function FromLe32(s: seq<byte>): (n: nat)
    requires |s| == 4
    ensures n < 0x1_0000_0000
  {
    s[0] as int + s[1] as int * 256 + s[2] as int * 0x10000 + s[3] as int * 0x1000000
  }

  lemma Halves(high: nat, low: nat)
    requires high < 0x10000 && low < 0x10000
    ensures var n := high * 0x10000 + low;
      && n % 256 == low % 256 && n / 256 % 256 == low / 256
      && n / 0x10000 % 256 == high % 256 && n / 0x1000000 == high / 256
  {}

  lemma Le32RoundTrip(n: nat)
    requires n < 0x1_0000_0000
    ensures FromLe32(Le32(n)) == n
  {
    Halves(n / 0x10000, n % 0x10000);
  }

  function Le16(n: nat): (r: seq<byte>)
    requires n < 0x10000
    ensures |r| == 2
  {
    [n % 256, n / 256]
  }

  function FromLe16(s: seq<byte>): (n: nat)
    requires |s| == 2
    ensures n < 0x10000
  {
    s[0] as int + s[1] as int * 256
  }

  lemma Le16RoundTrip(n: nat)
    requires n < 0x10000
    ensures FromLe16(Le16(n)) == n
  {}

  /** ntohs and htons on a little-endian host. */
  function Swap16(n: nat): (r: nat)
    requires n < 0x10000
    ensures r < 0x10000
  {
    FromBe16(Le16(n))
  }

  /** ntohl and htonl on a little-endian host. */
  function Swap32(n: nat): (r: nat)
    requires n < 0x1_0000_0000
    ensures r < 0x1_0000_0000
  {
    FromBe32(Le32(n))
  }

  lemma Le32OfHalves(high: nat, low: nat)
    requires high < 0x10000 && low < 0x10000
    ensures Le32(high * 0x10000 + low) == [low % 256, low / 256, high % 256, high / 256]
  {
    Halves(high, low);
  }

  lemma HalfDigits(b0: byte, b1: byte)
    ensures var h := FromBe16([b0, b1]); h % 256 == b1 && h / 256 == b0
  {}

  lemma Le32OfBe32(b0: byte, b1: byte, b2: byte, b3: byte)
    ensures Le32(FromBe32([b0, b1, b2, b3])) == [b3, b2, b1, b0]
  {
    hide Le32, FromBe16;
    var s := [b0, b1, b2, b3];
    assert s[..2] == [b0, b1] && s[2..] == [b2, b3];
    HalfDigits(b0, b1);
    HalfDigits(b2, b3);
    Le32OfHalves(FromBe16([b0, b1]), FromBe16([b2, b3]));
  }

  lemma SwapTwice(h: nat, w: nat)
    requires h < 0x10000 && w < 0x1_0000_0000
    ensures Swap16(Swap16(h)) == h
    ensures Swap32(Swap32(w)) == w
  {
    var b := Le32(w);
    Le32OfBe32(b[0], b[1], b[2], b[3]);
    assert b == [b[0], b[1], b[2], b[3]];
    FromBe32Reversed(b[3], b[2], b[1], b[0]);
    Le32RoundTrip(w);
  }

  lemma FromBe32Reversed(b3: byte, b2: byte, b1: byte, b0: byte)
    ensures FromBe32([b3, b2, b1, b0]) == FromLe32([b0, b1, b2, b3])
  {}
}

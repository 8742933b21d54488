/** crc32_sb8_64_bit and its copying twin, in the form of the source: an alignment prologue,
    an 8-byte body and a tail. `address` is the machine address of buf[start]; only its
    value modulo 8 matters. The host is little-endian. */
module Crc32Sliced {
  import opened Crc32
  import opened Crc32Tables

  method Crc32Sb8(crcIn: bv32, buf: array<bv8>, start: nat, length: nat, address: nat)
    returns (crc: bv32)
    requires start + length <= buf.Length
    ensures crc == Register(crcIn, buf[start..start + length])
  {
    hide Register, TableStep, SliceStep;
    crc := crcIn;
    ghost var src := buf[start..start + length];
    var n, left := 0, length;
    assert Register(crcIn, src[..0]) == crc by { RegisterEmpty(crcIn, src[..0]); }
    while left != 0 && (address + n) % 8 != 0
      invariant 0 <= n && 0 <= left && n + left == length
      invariant crc == Register(crcIn, src[..n])
    {
      StepFold(crcIn, src, n);
      crc := TableStep(crc, buf[start + n]);
      n, left := n + 1, left - 1;
    }
    while left >= 8
      invariant 0 <= n && 0 <= left && n + left == length
      invariant crc == Register(crcIn, src[..n])
    {
      SliceFold(crcIn, src, n);
      var p := start + n;
      crc := SliceStep(crc, buf[p], buf[p + 1], buf[p + 2], buf[p + 3],
                       buf[p + 4], buf[p + 5], buf[p + 6], buf[p + 7]);
      n, left := n + 8, left - 8;
    }
    while left != 0
      invariant 0 <= n && 0 <= left && n + left == length
      invariant crc == Register(crcIn, src[..n])
    {
      StepFold(crcIn, src, n);
      crc := TableStep(crc, buf[start + n]);
      n, left := n + 1, left - 1;
    }
    assert src[..n] == src;
  }

  lemma RegisterEmpty(c: bv32, s: seq<bv8>)
    requires s == []
    ensures Register(c, s) == c
  {}

  /** Folding one more byte through table o32. */
  lemma StepFold(c: bv32, src: seq<bv8>, n: nat)
    requires n < |src|
    ensures TableStep(Register(c, src[..n]), src[n]) == Register(c, src[..n + 1])
  {
    hide *;
    TableStepIsRegister(Register(c, src[..n]), src[n]);
    RegisterAppend(c, src[..n], [src[n]]);
    assert src[..n + 1] == src[..n] + [src[n]];
  }

  /** Folding one more slice of eight bytes. */
  lemma SliceFold(c: bv32, src: seq<bv8>, n: nat)
    requires n + 8 <= |src|
    ensures SliceStep(Register(c, src[..n]), src[n], src[n + 1], src[n + 2], src[n + 3],
                      src[n + 4], src[n + 5], src[n + 6], src[n + 7])
         == Register(c, src[..n + 8])
  {
    hide *;
    var d := src[n..n + 8];
    SliceStepIsRegister(Register(c, src[..n]), d[0], d[1], d[2], d[3], d[4], d[5], d[6], d[7]);
    assert [d[0], d[1], d[2], d[3], d[4], d[5], d[6], d[7]] == d;
    RegisterAppend(c, src[..n], d);
    assert src[..n + 8] == src[..n] + d;
  }

  /** Nothing that is still to be read is written over first. */
  predicate Apart(same: bool, dstart: nat, start: nat, length: nat) {
    same ==> dstart <= start || start + length <= dstart
  }

  /** The bytes `out` have been written from dstart on, and nothing else; if source and
      destination are apart they are the source's, whose rest is intact. */
  ghost predicate Copied(now: seq<bv8>, source: seq<bv8>, same: bool, was: seq<bv8>, dstart: nat, start: nat,
                         src: seq<bv8>, out: seq<bv8>) {
    && |out| <= |src| && start + |src| <= |source| && dstart + |src| <= |now| == |was|
    && (forall k :: 0 <= k < |out| ==> now[dstart + k] == out[k])
    && (forall k :: 0 <= k < dstart ==> now[k] == was[k])
    && (forall k :: dstart + |out| <= k < |was| ==> now[k] == was[k])
    && (Apart(same, dstart, start, |src|) ==>
          && (forall k :: 0 <= k < |out| ==> out[k] == src[k])
          && (forall k :: start + |out| <= k < start + |src| ==> source[k] == src[k - start]))
  }

  ghost predicate CopiedSoFar(dest: array<bv8>, was: seq<bv8>, dstart: nat,
                              buf: array<bv8>, start: nat, src: seq<bv8>, out: seq<bv8>)
    reads dest, buf
  {
    Copied(dest[..], buf[..], dest == buf, was, dstart, start, src, out)
  }

  function Overwritten(now: seq<bv8>, at: nat, d: seq<bv8>): (r: seq<bv8>)
    requires at + |d| <= |now|
    ensures |r| == |now|
  {
    now[..at] + d + now[at + |d|..]
  }

  /** The next bytes of the source region, as it is now, are written. */
  lemma CopiedMore(now: seq<bv8>, source: seq<bv8>, same: bool, was: seq<bv8>, dstart: nat, start: nat,
                   src: seq<bv8>, out: seq<bv8>, d: seq<bv8>)
    requires Copied(now, source, same, was, dstart, start, src, out) && (same ==> now == source)
    requires |out| + |d| <= |src| && d == source[start + |out|..start + |out| + |d|]
    ensures var after := Overwritten(now, dstart + |out|, d);
      Copied(after, if same then after else source, same, was, dstart, start, src, out + d)
  {}

  lemma ByteFold(c: bv32, out: seq<bv8>, b: bv8)
    ensures TableStep(Register(c, out), b) == Register(c, out + [b])
  {
    hide Register, TableStep;
    StepFold(c, out + [b], |out|);
    assert (out + [b])[..|out|] == out && (out + [b])[..|out| + 1] == out + [b];
  }

  lemma WordFold(c: bv32, out: seq<bv8>, d: seq<bv8>)
    requires |d| == 8
    ensures SliceStep(Register(c, out), d[0], d[1], d[2], d[3], d[4], d[5], d[6], d[7]) == Register(c, out + d)
  {
    hide Register, SliceStep;
    var all := out + d;
    SliceFold(c, all, |out|);
    assert all[..|out|] == out && all[..|out| + 8] == all;
    assert forall k :: 0 <= k < 8 ==> all[|out| + k] == d[k];
  }

  /** *dest++ = *p_buf */
  method StoreByte(dest: array<bv8>, ghost was: seq<bv8>, dstart: nat,
                   buf: array<bv8>, start: nat, ghost src: seq<bv8>, ghost out: seq<bv8>, n: nat)
    returns (b: bv8)
    requires n == |out| < |src| && CopiedSoFar(dest, was, dstart, buf, start, src, out)
    modifies dest
    ensures CopiedSoFar(dest, was, dstart, buf, start, src, out + [b])
  {
    b := buf[start + n];
    ghost var before, source := dest[..], buf[..];
    CopiedMore(before, source, dest == buf, was, dstart, start, src, out, [b]);
    dest[dstart + n] := b;
    assert dest[..] == Overwritten(before, dstart + n, [b]);
  }

  /** The 64-bit load and store of the copying loop. */
  method StoreWord(dest: array<bv8>, ghost was: seq<bv8>, dstart: nat,
                   buf: array<bv8>, start: nat, ghost src: seq<bv8>, ghost out: seq<bv8>, n: nat)
    returns (d: seq<bv8>)
    requires n == |out| && n + 8 <= |src| && CopiedSoFar(dest, was, dstart, buf, start, src, out)
    modifies dest
    ensures |d| == 8
    ensures CopiedSoFar(dest, was, dstart, buf, start, src, out + d)
  {
    d := buf[start + n..start + n + 8];
    ghost var before, source := dest[..], buf[..];
    assert source[start + n..start + n + 8] == d;
    CopiedMore(before, source, dest == buf, was, dstart, start, src, out, d);
    hide Copied;
    forall k | 0 <= k < 8 {
      dest[dstart + n + k] := d[k];
    }
    assert dest[..] == Overwritten(before, dstart + n, d);
  }

  /** One byte: copied, and taken into the checksum. */
  method CopyByte(ghost crcIn: bv32, crcWas: bv32, dest: array<bv8>, ghost was: seq<bv8>, dstart: nat,
                  buf: array<bv8>, start: nat, ghost src: seq<bv8>, ghost out: seq<bv8>, n: nat)
    returns (crc: bv32, ghost next: seq<bv8>)
    requires n == |out| < |src| && CopiedSoFar(dest, was, dstart, buf, start, src, out)
    requires crcWas == Register(crcIn, out)
    modifies dest
    ensures |next| == n + 1 && CopiedSoFar(dest, was, dstart, buf, start, src, next)
    ensures crc == Register(crcIn, next)
  {
    hide Register, TableStep, CopiedSoFar;
    var b := StoreByte(dest, was, dstart, buf, start, src, out, n);
    crc := TableStep(crcWas, b);
    next := out + [b];
    ByteFold(crcIn, out, b);
  }

  /** One 64-bit word: copied, and taken into the checksum with eight look-ups. */
  method CopyWord(ghost crcIn: bv32, crcWas: bv32, dest: array<bv8>, ghost was: seq<bv8>, dstart: nat,
                  buf: array<bv8>, start: nat, ghost src: seq<bv8>, ghost out: seq<bv8>, n: nat)
    returns (crc: bv32, ghost next: seq<bv8>)
    requires n == |out| && n + 8 <= |src| && CopiedSoFar(dest, was, dstart, buf, start, src, out)
    requires crcWas == Register(crcIn, out)
    modifies dest
    ensures |next| == n + 8 && CopiedSoFar(dest, was, dstart, buf, start, src, next)
    ensures crc == Register(crcIn, next)
  {
    hide Register, SliceStep, CopiedSoFar;
    var d := StoreWord(dest, was, dstart, buf, start, src, out, n);
    crc := SliceStep(crcWas, d[0], d[1], d[2], d[3], d[4], d[5], d[6], d[7]);
    next := out + d;
    WordFold(crcIn, out, d);
  }

  lemma CopyStarts(dest: array<bv8>, dstart: nat, buf: array<bv8>, start: nat, length: nat)
    requires start + length <= buf.Length && dstart + length <= dest.Length
    ensures CopiedSoFar(dest, dest[..], dstart, buf, start, buf[start..start + length], [])
  {}

  /** However source and destination lie, the result is the checksum of what is then in the
      destination, and nothing around it has changed. The copy is made front to back, a slice
      at a time, so it is exact unless the destination starts inside the source region, after
      its first byte. */
  method Crc32Copy(crcIn: bv32, dest: array<bv8>, dstart: nat,
                   buf: array<bv8>, start: nat, length: nat, address: nat)
    returns (crc: bv32)
    requires start + length <= buf.Length && dstart + length <= dest.Length
    modifies dest
    ensures crc == Register(crcIn, dest[dstart..dstart + length])
    ensures dest[..dstart] == old(dest[..dstart]) && dest[dstart + length..] == old(dest[dstart + length..])
    ensures Apart(dest == buf, dstart, start, length) ==>
      dest[dstart..dstart + length] == old(buf[start..start + length])
  {
    hide Register, CopiedSoFar, Copied, Apart;
    crc := crcIn;
    ghost var src, was, out := buf[start..start + length], dest[..], [];
    var n, left := 0, length;
    CopyStarts(dest, dstart, buf, start, length);
    RegisterEmpty(crcIn, []);
    while left != 0 && (address + n) % 8 != 0
      invariant 0 <= n && 0 <= left && n + left == length == |src| && n == |out|
      invariant CopiedSoFar(dest, was, dstart, buf, start, src, out)
      invariant crc == Register(crcIn, out)
    {
      crc, out := CopyByte(crcIn, crc, dest, was, dstart, buf, start, src, out, n);
      n, left := n + 1, left - 1;
    }
    while left >= 8
      invariant 0 <= n && 0 <= left && n + left == length == |src| && n == |out|
      invariant CopiedSoFar(dest, was, dstart, buf, start, src, out)
      invariant crc == Register(crcIn, out)
    {
      crc, out := CopyWord(crcIn, crc, dest, was, dstart, buf, start, src, out, n);
      n, left := n + 8, left - 8;
    }
    while left != 0
      invariant 0 <= n && 0 <= left && n + left == length == |src| && n == |out|
      invariant CopiedSoFar(dest, was, dstart, buf, start, src, out)
      invariant crc == Register(crcIn, out)
    {
      crc, out := CopyByte(crcIn, crc, dest, was, dstart, buf, start, src, out, n);
      n, left := n + 1, left - 1;
    }
    CopyFinished(dest, was, dstart, buf, start, src, out);
  }

  lemma CopyFinished(dest: array<bv8>, was: seq<bv8>, dstart: nat,
                     buf: array<bv8>, start: nat, src: seq<bv8>, out: seq<bv8>)
    requires CopiedSoFar(dest, was, dstart, buf, start, src, out) && |out| == |src|
    ensures dstart + |src| <= |was| == dest.Length
    ensures dest[dstart..dstart + |src|] == out
    ensures dest[..dstart] == was[..dstart] && dest[dstart + |src|..] == was[dstart + |src|..]
    ensures Apart(dest == buf, dstart, start, |src|) ==> out == src
  {}
}

/** Message padding, sections 3.1 and 3.2 of RFC 1321: one 0x80 byte, zero
    bytes up to 56 mod 64, then the bit length mod 2^64 as 8 little-endian
    bytes. */
module Padding {
  import opened Bytes

  /** 2^64: the length field keeps only the low 64 bits of the bit length. */
  const TwoToThe64: nat := 0x1_0000_0000_0000_0000

  /** Number of zero bytes that bring `n` message bytes plus the 0x80 byte to
      56 mod 64 (Dafny's `%` never returns a negative value). */
  function ZeroCount(n: nat): (z: nat)
    ensures z < 64
    ensures (n + 1 + z) % 64 == 56
  {
    (55 - n) % 64
  }

  /** The original length in bits, truncated to 64 bits, as 8 little-endian
      bytes. */
  function LengthField(n: nat): (r: seq<byte>)
    ensures |r| == 8
    ensures FromLE(r) == (8 * n) % TwoToThe64
  {
    PowEightBytes();
    ToLE((8 * n) % TwoToThe64, 8)
  }

  /** The padded message. The result is fully determined by its contract:
      the shortest multiple of 64 bytes that holds the message, the 0x80
      byte and the 8-byte length field, laid out in that order with zeros
      between. */
  function Pad(msg: seq<byte>): (r: seq<byte>)
    ensures |r| % 64 == 0 && |r| > 0
    ensures |msg| + 9 <= |r| <= |msg| + 72
    ensures r[..|msg|] == msg
    ensures r[|msg|] == 0x80
    ensures forall j :: |msg| < j < |r| - 8 ==> r[j] == 0
    ensures r[|r| - 8..] == LengthField(|msg|)
    ensures FromLE(r[|r| - 8..]) == (8 * |msg|) % TwoToThe64
  {
    var z := ZeroCount(|msg|);
    var tail := LengthField(|msg|);
    Layout(msg, z, tail);
    FullBlocks(|msg| + 1 + z);
    msg + [0x80] + Zeros(z) + tail
  }

  /** Eight more bytes after a length of 56 mod 64 complete a block. */
  lemma FullBlocks(m: nat)
    requires m % 64 == 56
    ensures (m + 8) % 64 == 0
  {
  }

  /** Where each part sits in `msg + [0x80] + zeros + tail`. */
  lemma Layout(msg: seq<byte>, z: nat, tail: seq<byte>)
    requires |tail| == 8
    ensures var r := msg + [0x80] + Zeros(z) + tail;
      && |r| == |msg| + 1 + z + 8
      && r[..|msg|] == msg
      && r[|msg|] == 0x80
      && (forall j :: |msg| < j < |r| - 8 ==> r[j] == 0)
      && r[|r| - 8..] == tail
  {
    var body := msg + [0x80] + Zeros(z);
    var r := body + tail;
    assert r[..|msg|] == msg;
    assert r[|r| - 8..] == tail;
    forall j | |msg| < j < |r| - 8
      ensures r[j] == 0
    {
      assert r[j] == body[j] == Zeros(z)[j - |msg| - 1];
    }
  }

  /** The padded length, and so the number of 64-byte blocks, depends only on
      the message length: messages of 0..55 bytes pad to one block, 56..119
      to two, and so on. */
  lemma PadBlockCount(msg: seq<byte>)
    ensures |Pad(msg)| == 64 * ((|msg| + 8) / 64 + 1)
    ensures |msg| == 55 ==> |Pad(msg)| == 64
    ensures |msg| == 56 || |msg| == 57 || |msg| == 64 ==> |Pad(msg)| == 128
  {
    var n, len := |msg|, |Pad(msg)|;
    var q, k := (n + 8) / 64, len / 64;
    assert n + 8 == 64 * q + (n + 8) % 64;
    assert len == 64 * k;
    assert k == q + 1;
  }

  /** Padding is applied unconditionally, so two messages with the same
      padded form are the same message, whatever their length: the 0x80
      marker at index |msg| pins the length even when the length field
      has wrapped. */
  lemma PadInjective(m1: seq<byte>, m2: seq<byte>)
    requires Pad(m1) == Pad(m2)
    ensures m1 == m2
  {
    var r := Pad(m1);
    assert r[|m2|] != 0 && |m2| < |r| - 8;
    assert r[|m1|] != 0 && |m1| < |r| - 8;
    assert |m1| == |m2|;
    assert m1 == r[..|m1|] == m2;
  }

  /** The padder as `pad` writes it: append 0x80, append zeros while the
      length is not 56 mod 64, then append the length field. */
  method PadLoop(msg: seq<byte>) returns (r: seq<byte>)
    ensures r == Pad(msg)
  {
    var bitLen := (8 * |msg|) % TwoToThe64;
    r := msg + [0x80];
    while |r| % 64 != 56
      invariant |msg| + 1 <= |r| <= |msg| + 1 + ZeroCount(|msg|)
      invariant r == msg + [0x80] + Zeros(|r| - |msg| - 1)
      decreases |msg| + 1 + ZeroCount(|msg|) - |r|
    {
      assert Zeros(|r| - |msg|) == Zeros(|r| - |msg| - 1) + [0];
      r := r + [0];
    }
    SameResidue(|msg| + 1, |r| - |msg| - 1, ZeroCount(|msg|));
    PowEightBytes();
    r := r + ToLE(bitLen, 8);
  }

  /** Two offsets below 64 that leave the same residue mod 64 are equal. */
  lemma SameResidue(b: nat, c: nat, z: nat)
    requires c <= z < 64
    requires (b + c) % 64 == (b + z) % 64
    ensures c == z
  {
  }
}

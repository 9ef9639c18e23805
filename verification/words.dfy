/** 32-bit words and their little-endian byte layout. A word's integer value
    is taken through its bytes, so the step from `bv32` to Python's integers
    goes one byte at a time. */
module Words {
  import opened Bytes

  /** The bit pattern of a byte, built one bit at a time. */
  function ByteBits(b: byte): (x: bv8)
    ensures x as int == b
  {
    if b == 0 then 0
    else
      var high := ByteBits(b / 2);
      ShiftInBit(high, b % 2 == 1);
      (high << 1) | (if b % 2 == 1 then 1 else 0)
  }

  lemma ShiftInBit(high: bv8, odd: bool)
    requires high as int < 128
    ensures ((high << 1) | (if odd then 1 else 0)) as int == 2 * high as int + (if odd then 1 else 0)
  {
  }

  /** The eight bits of `w` starting at bit `shift`. */
  function Lane(w: bv32, shift: bv32): bv8
    requires shift <= 24
  {
    ((w >> shift) & 0xFF) as bv8
  }

  /** The four bytes of `w`, least significant first (what
      `to_bytes(4, byteorder='little')` writes for a 32-bit value). */
  function WordBytes(w: bv32): (r: seq<byte>)
    ensures |r| == 4
  {
    [Lane(w, 0) as int, Lane(w, 8) as int, Lane(w, 16) as int, Lane(w, 24) as int]
  }

  /** `int.from_bytes(bs, byteorder='little')` for at most four bytes, as a
      32-bit word. */
  function WordFromLE(bs: seq<byte>): bv32
    requires |bs| <= 4
  {
    if |bs| == 0 then 0 else PushByte(bs[0], WordFromLE(bs[1..]))
  }

  /** Writing the word read from at most four bytes gives those bytes back,
      padded with zero bytes: a short read fills the high bytes with zeros. */
  lemma {:induction false} WordFromLEBytes(bs: seq<byte>)
    requires |bs| <= 4
    ensures WordBytes(WordFromLE(bs)) == bs + Zeros(4 - |bs|)
  {
    if |bs| > 0 {
      var rest := WordFromLE(bs[1..]);
      WordFromLEBytes(bs[1..]);
      ByteStep(bs[0], rest, WordBytes(rest));
      assert bs + Zeros(4 - |bs|) == [bs[0]] + (bs[1..] + Zeros(4 - |bs[1..]|))[..3];
    }
  }

  /** The word read from at most four bytes has the value Python's
      `int.from_bytes(bs, byteorder='little')` gives. */
  lemma WordFromLEValue(bs: seq<byte>)
    requires |bs| <= 4
    ensures WordValue(WordFromLE(bs)) == FromLE(bs)
  {
    WordFromLEBytes(bs);
    FromLEZeros(bs, 4 - |bs|);
  }

  /** `rest` shifted up one byte with `b` in the low byte. */
  function PushByte(b: byte, rest: bv32): bv32
  {
    (ByteBits(b) as bv32) | (rest << 8)
  }

  /** Prepending a byte to a word's encoding shifts the word left by eight
      bits (dropping the top byte). */
  lemma ByteStep(b: byte, rest: bv32, restBytes: seq<byte>)
    requires restBytes == WordBytes(rest)
    ensures WordBytes(PushByte(b, rest)) == [b] + restBytes[..3]
  {
    var r := WordBytes(PushByte(b, rest));
    LowByteAfterPush(b, rest);
    HighBytesAfterPush(b, rest);
    assert r == [r[0]] + r[1..];
  }

  lemma LowByteAfterPush(b: byte, rest: bv32)
    ensures WordBytes(PushByte(b, rest))[0] == b
  {
    ShiftInByte(ByteBits(b), rest);
  }

  lemma HighBytesAfterPush(b: byte, rest: bv32)
    ensures WordBytes(PushByte(b, rest))[1..] == WordBytes(rest)[..3]
  {
    ShiftInByte(ByteBits(b), rest);
  }

  lemma ShiftInByte(x: bv8, rest: bv32)
    ensures var w := (x as bv32) | (rest << 8);
      && Lane(w, 0) == x
      && Lane(w, 8) == Lane(rest, 0)
      && Lane(w, 16) == Lane(rest, 8)
      && Lane(w, 24) == Lane(rest, 16)
  {
  }

  /** Encoding a word and reading it back gives the word. */
  lemma WordRoundTrip(w: bv32)
    ensures WordFromLE(WordBytes(w)) == w
  {
    var bs := WordBytes(w);
    WordFromLEBytes(bs);
    assert WordBytes(WordFromLE(bs)) == bs;
    WordBytesInjective(WordFromLE(bs), w);
  }

  /** Distinct words have distinct encodings. */
  lemma WordBytesInjective(v: bv32, w: bv32)
    requires WordBytes(v) == WordBytes(w)
    ensures v == w
  {
    var bv, bw := WordBytes(v), WordBytes(w);
    assert bv[0] == bw[0] && bv[1] == bw[1] && bv[2] == bw[2] && bv[3] == bw[3];
    ByteBitsInjective(Lane(v, 0), Lane(w, 0));
    ByteBitsInjective(Lane(v, 8), Lane(w, 8));
    ByteBitsInjective(Lane(v, 16), Lane(w, 16));
    ByteBitsInjective(Lane(v, 24), Lane(w, 24));
    SameLanesSameWord(v, w);
  }

  lemma ByteBitsInjective(x: bv8, y: bv8)
    requires x as int == y as int
    ensures x == y
  {
  }

  lemma SameLanesSameWord(v: bv32, w: bv32)
    requires Lane(v, 0) == Lane(w, 0) && Lane(v, 8) == Lane(w, 8)
    requires Lane(v, 16) == Lane(w, 16) && Lane(v, 24) == Lane(w, 24)
    ensures v == w
  {
  }

  /** The integer a 32-bit register holds, in [0, 2^32). */
  function WordValue(w: bv32): (n: nat)
    ensures n < 0x1_0000_0000
    ensures ToLE(n, 4) == WordBytes(w)
  {
    PowFourBytes();
    ToLEFromLE(WordBytes(w));
    FromLE(WordBytes(w))
  }
}

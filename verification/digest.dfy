/** The driver: the initial buffer of section 3.3 of RFC 1321, the left fold
    of the block compression over a message, the packing of the final state
    into one 128-bit integer, and the hexadecimal rendering of section 3.5. */
module Digest {
  import opened Bytes
  import opened Words
  import opened Padding
  import opened Rounds

  /** `init_MDBuffer`: the words A, B, C, D of section 3.3 of RFC 1321. */
  const InitBuffer: State := State(0x67452301, 0xefcdab89, 0x98badcfe, 0x10325476)

  /** Register `k` of `s`, in the order A, B, C, D. */
  function Register(s: State, k: nat): bv32
    requires k < 4
  {
    match k
    case 0 => s.a
    case 1 => s.b
    case 2 => s.c
    case 3 => s.d
  }

  /** The block loop of `processMessage`: compress `msg[0..64]`, then
      `msg[64..128]`, and so on, threading the chaining state left to right.
      The slice is not checked, so a trailing block shorter than 64 bytes is
      compressed as it is. */
  function Blocks(s: State, msg: seq<byte>): State
    decreases |msg|
  {
    if |msg| == 0 then s
    else
      var n := if |msg| < 64 then |msg| else 64;
      Blocks(Compress(s, msg[..n]), msg[n..])
  }

  /** A single full block is one compression. */
  lemma BlocksOfOne(s: State, block: seq<byte>)
    requires |block| == 64
    ensures Blocks(s, block) == Compress(s, block)
  {
    assert block[..64] == block;
    assert block[64..] == [];
  }

  /** Chaining: folding over a block-aligned `u` followed by `v` is folding
      over `v` from the state reached after `u`. */
  lemma {:induction false} FoldAppend(s: State, u: seq<byte>, v: seq<byte>)
    requires |u| % 64 == 0
    ensures Blocks(s, u + v) == Blocks(Blocks(s, u), v)
    decreases |u|
  {
    if |u| == 0 {
      assert u + v == v;
    } else {
      var s' := Compress(s, u[..64]);
      assert (u + v)[..64] == u[..64];
      assert (u + v)[64..] == u[64..] + v;
      FoldAppend(s', u[64..], v);
    }
  }

  /** The sixteen bytes of a state: each word least significant byte first,
      A first and D last. */
  function StateBytes(s: State): (r: seq<byte>)
    ensures |r| == 16
  {
    WordBytes(s.a) + (WordBytes(s.b) + (WordBytes(s.c) + WordBytes(s.d)))
  }

  /** Byte `j` of the state's bytes is byte `j % 4` of register `j / 4`. */
  lemma StateBytesAt(s: State, j: nat)
    requires j < 16
    ensures StateBytes(s)[j] == WordBytes(Register(s, j / 4))[j % 4]
  {
    var bs := StateBytes(s);
    if j < 4 {
      assert bs[j] == WordBytes(s.a)[j];
    } else if j < 8 {
      assert bs[j] == WordBytes(s.b)[j - 4];
    } else if j < 12 {
      assert bs[j] == WordBytes(s.c)[j - 8];
    } else {
      assert bs[j] == WordBytes(s.d)[j - 12];
    }
  }

  /** Two states with the same bytes are the same state. */
  lemma StateBytesInjective(s1: State, s2: State)
    requires StateBytes(s1) == StateBytes(s2)
    ensures s1 == s2
  {
    SplitFour(WordBytes(s1.a), WordBytes(s1.b), WordBytes(s1.c), WordBytes(s1.d),
              WordBytes(s2.a), WordBytes(s2.b), WordBytes(s2.c), WordBytes(s2.d));
    WordBytesInjective(s1.a, s2.a);
    WordBytesInjective(s1.b, s2.b);
    WordBytesInjective(s1.c, s2.c);
    WordBytesInjective(s1.d, s2.d);
    SameRegisters(s1, s2);
  }

  lemma SameRegisters(s1: State, s2: State)
    requires s1.a == s2.a && s1.b == s2.b && s1.c == s2.c && s1.d == s2.d
    ensures s1 == s2
  {
  }

  /** Concatenations of four 4-byte pieces agree exactly when the pieces do. */
  lemma SplitFour(p1: seq<byte>, p2: seq<byte>, p3: seq<byte>, p4: seq<byte>,
                  q1: seq<byte>, q2: seq<byte>, q3: seq<byte>, q4: seq<byte>)
    requires |p1| == |p2| == |p3| == |p4| == |q1| == |q2| == |q3| == |q4| == 4
    requires p1 + (p2 + (p3 + p4)) == q1 + (q2 + (q3 + q4))
    ensures p1 == q1 && p2 == q2 && p3 == q3 && p4 == q4
  {
    var p, q := p1 + (p2 + (p3 + p4)), q1 + (q2 + (q3 + q4));
    assert p1 == p[0..4] == q[0..4] == q1;
    assert p2 == p[4..8] == q[4..8] == q2;
    assert p3 == p[8..12] == q[8..12] == q3;
    assert p4 == p[12..16] == q[12..16] == q4;
  }

  /** The final packing, `sum(word << (32 * i))`: A in the low 32 bits, D in
      the high 32. Its 16 little-endian bytes are the state's bytes. */
  function Pack(s: State): (n: nat)
    ensures n < Pow(256, 16)
    ensures ToLE(n, 16) == StateBytes(s)
  {
    PackIsLittleEndian(s);
    ToLEFromLE(StateBytes(s));
    WordValue(s.a) + WordValue(s.b) * 0x1_0000_0000
      + WordValue(s.c) * 0x1_0000_0000_0000_0000
      + WordValue(s.d) * 0x1_0000_0000_0000_0000_0000_0000
  }

  lemma PackIsLittleEndian(s: State)
    ensures FromLE(StateBytes(s)) ==
      WordValue(s.a) + WordValue(s.b) * 0x1_0000_0000
      + WordValue(s.c) * 0x1_0000_0000_0000_0000
      + WordValue(s.d) * 0x1_0000_0000_0000_0000_0000_0000
  {
    FourWordsLE(WordBytes(s.a), WordBytes(s.b), WordBytes(s.c), WordBytes(s.d));
  }

  /** Sixteen bytes read little-endian, four at a time. */
  lemma FourWordsLE(wa: seq<byte>, wb: seq<byte>, wc: seq<byte>, wd: seq<byte>)
    requires |wa| == |wb| == |wc| == |wd| == 4
    ensures FromLE(wa + (wb + (wc + wd))) ==
      FromLE(wa) + FromLE(wb) * 0x1_0000_0000
      + FromLE(wc) * 0x1_0000_0000_0000_0000
      + FromLE(wd) * 0x1_0000_0000_0000_0000_0000_0000
  {
    var cd := FromLE(wc + wd);
    assert cd == FromLE(wc) + 0x1_0000_0000 * FromLE(wd) by {
      AppendWordLE(wc, wd);
    }
    var bcd := FromLE(wb + (wc + wd));
    assert bcd == FromLE(wb) + 0x1_0000_0000 * cd by {
      AppendWordLE(wb, wc + wd);
    }
    assert FromLE(wa + (wb + (wc + wd))) == FromLE(wa) + 0x1_0000_0000 * bcd by {
      AppendWordLE(wa, wb + (wc + wd));
    }
    Horner(FromLE(wa), FromLE(wb), FromLE(wc), FromLE(wd));
  }

  /** a + 2^32(b + 2^32(c + 2^32 d)), multiplied out. */
  lemma Horner(a: int, b: int, c: int, d: int)
    ensures a + 0x1_0000_0000 * (b + 0x1_0000_0000 * (c + 0x1_0000_0000 * d)) ==
      a + b * 0x1_0000_0000 + c * 0x1_0000_0000_0000_0000
      + d * 0x1_0000_0000_0000_0000_0000_0000
  {
  }

  /** A 4-byte prefix is the low word of a little-endian reading. */
  lemma AppendWordLE(w: seq<byte>, rest: seq<byte>)
    requires |w| == 4
    ensures FromLE(w + rest) == FromLE(w) + 0x1_0000_0000 * FromLE(rest)
  {
    PowFourBytes();
    FromLEAppend(w, rest);
  }

  /** `processMessage`: the fold from the initial buffer, packed. */
  function ProcessMessage(msg: seq<byte>): (n: nat)
    ensures n < Pow(256, 16)
    ensures ToLE(n, 16) == StateBytes(Blocks(InitBuffer, msg))
  {
    Pack(Blocks(InitBuffer, msg))
  }

  /** `processMessage` as written: step an offset through the message 64
      bytes at a time, compress each slice into the running state, then
      pack. */
  method ProcessMessageLoop(msg: seq<byte>) returns (n: nat)
    ensures n == ProcessMessage(msg)
  {
    var st := InitBuffer;
    var offset := 0;
    assert Slice(msg, 0, |msg|) == msg[0..|msg|] == msg;
    while offset < |msg|
      invariant Blocks(st, Slice(msg, offset, |msg| + offset)) == Blocks(InitBuffer, msg)
      decreases |msg| - offset
    {
      var block := Slice(msg, offset, offset + 64);
      BlocksFrom(st, msg, offset);
      st := CompressBlock(st, block);
      offset := offset + 64;
    }
    assert Slice(msg, offset, |msg| + offset) == [];
    n := Pack(st);
  }

  /** One turn of the block loop, at byte offset `offset`. */
  lemma BlocksFrom(st: State, msg: seq<byte>, offset: nat)
    requires offset < |msg|
    ensures Blocks(st, Slice(msg, offset, |msg| + offset)) ==
      Blocks(Compress(st, Slice(msg, offset, offset + 64)), Slice(msg, offset + 64, |msg| + offset + 64))
  {
    var rest := msg[offset..];
    var hi := if offset + 64 < |msg| then offset + 64 else |msg|;
    assert Slice(msg, offset, |msg| + offset) == rest;
    assert Slice(msg, offset, offset + 64) == msg[offset..hi] == rest[..hi - offset];
    assert Slice(msg, offset + 64, |msg| + offset + 64) == msg[hi..] == rest[hi - offset..];
  }

  /** `MD_to_hex`: the 16 little-endian bytes of `digest`, read back
      big-endian and written as 32 lowercase hex digits; that is, each byte
      in turn as two hex digits. Python's `to_bytes(16)` raises
      OverflowError for a digest of 2^128 or more, which is excluded here. */
  function MdToHex(digest: nat): (r: string)
    requires digest < Pow(256, 16)
    ensures |r| == 32 && IsLowerHex(r)
    ensures r == ByteHex(ToLE(digest, 16))
  {
    HexOfBigEndian(ToLE(digest, 16));
    Hex(FromBE(ToLE(digest, 16)), 32)
  }

  /** The layout of section 3.5 of RFC 1321: characters 2j and 2j + 1 of the
      rendered digest are the high and low nibble of byte `j % 4` (least
      significant first) of register `j / 4`. */
  lemma DigestLayout(s: State, j: nat)
    requires j < 16
    ensures var h := MdToHex(Pack(s));
      var x := WordBytes(Register(s, j / 4))[j % 4];
      h[2 * j] == HexDigit(x / 16) && h[2 * j + 1] == HexDigit(x % 16)
  {
    ByteHexAt(StateBytes(s), j);
    StateBytesAt(s, j);
  }

  /** Parsing the rendered digest of a state gives the state's bytes back. */
  lemma RenderedState(s: State)
    ensures ParseByteHex(MdToHex(Pack(s))) == StateBytes(s)
  {
    ParseByteHexRoundTrip(StateBytes(s));
  }

  /** Distinct final states give distinct hex strings. */
  lemma FormatInjective(s1: State, s2: State)
    requires MdToHex(Pack(s1)) == MdToHex(Pack(s2))
    ensures s1 == s2
  {
    RenderedState(s1);
    RenderedState(s2);
    StateBytesInjective(s1, s2);
  }

  /** The pure part of `md5`: pad, fold, pack, render. The 32 characters
      spell out, byte by byte, the final chaining state of the padded
      message. */
  function Md5(msg: seq<byte>): (r: string)
    ensures |r| == 32 && IsLowerHex(r)
    ensures ParseByteHex(r) == StateBytes(Blocks(InitBuffer, Pad(msg)))
  {
    RenderedState(Blocks(InitBuffer, Pad(msg)));
    MdToHex(ProcessMessage(Pad(msg)))
  }

  /** A message with a block-aligned prefix `u` is hashed by continuing
      from the state after `u`. */
  lemma PrefixChaining(u: seq<byte>, v: seq<byte>)
    requires |u| % 64 == 0
    ensures Blocks(InitBuffer, Pad(u + v)) == Blocks(Blocks(InitBuffer, u), Pad(u + v)[|u|..])
  {
    PadKeepsPrefix(u, v);
    FoldAppend(InitBuffer, u, Pad(u + v)[|u|..]);
  }

  /** The block fold over whole 64-byte blocks only: the reference for
      what the driver compresses when no block is short. */
  function WholeBlocks(s: State, msg: seq<byte>): State
    requires |msg| % 64 == 0
    decreases |msg|
  {
    if |msg| == 0 then s else WholeBlocks(Compress(s, msg[..64]), msg[64..])
  }

  /** On a block-aligned message the driver's clamped fold compresses only
      whole 64-byte blocks. */
  lemma {:induction false} BlocksAreWhole(s: State, msg: seq<byte>)
    requires |msg| % 64 == 0
    ensures Blocks(s, msg) == WholeBlocks(s, msg)
    decreases |msg|
  {
    if |msg| > 0 {
      BlocksAreWhole(Compress(s, msg[..64]), msg[64..]);
    }
  }

  /** The padded message is a whole number of blocks, so no block the
      driver compresses on the way to `Md5` is short. */
  lemma PaddedBlocksAreWhole(msg: seq<byte>)
    ensures |Pad(msg)| % 64 == 0
    ensures Blocks(InitBuffer, Pad(msg)) == WholeBlocks(InitBuffer, Pad(msg))
  {
    BlocksAreWhole(InitBuffer, Pad(msg));
  }

  lemma PadKeepsPrefix(u: seq<byte>, v: seq<byte>)
    ensures Pad(u + v) == u + Pad(u + v)[|u|..]
  {
    var p := Pad(u + v);
    assert p[..|u|] == (u + v)[..|u|] == u;
  }
}

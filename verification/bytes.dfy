/** Conversions between non-negative integers and byte sequences, in the two
    byte orders Python's `int.to_bytes` / `int.from_bytes` offer, and the
    lowercase hexadecimal rendering used by the digest formatter. */
module Bytes {

  /** A byte as Python's `bytearray` holds it: an integer in [0, 256). */
  type byte = b: int | 0 <= b < 256

  /** `base` raised to the power `k`. */
  function Pow(base: nat, k: nat): nat
  {
    if k == 0 then 1 else base * Pow(base, k - 1)
  }

  lemma PowPositive(base: nat, k: nat)
    requires base > 0
    ensures Pow(base, k) > 0
  {
    if k > 0 {
      PowPositive(base, k - 1);
    }
  }

  /** 16^(2k) = 256^k: two hex digits per byte. */
  lemma {:induction false} PowSixteenSquared(k: nat)
    ensures Pow(16, 2 * k) == Pow(256, k)
  {
    if k > 0 {
      PowSixteenSquared(k - 1);
      assert Pow(16, 2 * k) == 16 * (16 * Pow(16, 2 * (k - 1)));
    }
  }

  /** 256^4 = 2^32: four bytes make a 32-bit word. */
  lemma PowFourBytes()
    ensures Pow(256, 4) == 0x1_0000_0000
  {
    assert Pow(256, 2) == 0x1_0000;
  }

  /** 256^8 = 2^64: eight bytes make a 64-bit field. */
  lemma PowEightBytes()
    ensures Pow(256, 8) == 0x1_0000_0000_0000_0000
  {
    PowFourBytes();
    PowAdd(256, 4, 4);
  }

  lemma {:induction false} PowAdd(base: nat, j: nat, k: nat)
    ensures Pow(base, j + k) == Pow(base, j) * Pow(base, k)
  {
    if j > 0 {
      PowAdd(base, j - 1, k);
      assert Pow(base, j + k) == base * Pow(base, j - 1 + k);
    }
  }

  /** A run of `k` zero bytes. */
  function Zeros(k: nat): (r: seq<byte>)
    ensures |r| == k
    ensures forall j :: 0 <= j < k ==> r[j] == 0
  {
    seq(k, _ => 0 as byte)
  }

  /** Python's `bs[lo:hi]` for `0 <= lo <= hi`: bounds past the end are
      clamped to the length, so the slice can come out short or empty. */
  function Slice(bs: seq<byte>, lo: nat, hi: nat): (r: seq<byte>)
    requires lo <= hi
    ensures |r| <= hi - lo
    ensures hi <= |bs| ==> r == bs[lo..hi]
    ensures lo < |bs| ==> r == bs[lo..if hi < |bs| then hi else |bs|]
    ensures |bs| <= lo ==> r == []
  {
    var l := if lo < |bs| then lo else |bs|;
    var h := if hi < |bs| then hi else |bs|;
    bs[l..h]
  }

  /** The value of `bs` read least significant byte first
      (`int.from_bytes(bs, byteorder='little')`). */
  function FromLE(bs: seq<byte>): (n: nat)
    ensures n < Pow(256, |bs|)
  {
    if |bs| == 0 then 0 else bs[0] + 256 * FromLE(bs[1..])
  }

  /** Trailing zero bytes add nothing to a little-endian value. */
  lemma {:induction false} FromLEZeros(bs: seq<byte>, k: nat)
    ensures FromLE(bs + Zeros(k)) == FromLE(bs)
  {
    ZerosValue(k);
    FromLEAppend(bs, Zeros(k));
  }

  lemma {:induction false} ZerosValue(k: nat)
    ensures FromLE(Zeros(k)) == 0
  {
    if k > 0 {
      assert Zeros(k)[1..] == Zeros(k - 1);
      ZerosValue(k - 1);
    }
  }

  /** The `k` bytes of `n`, least significant first
      (`n.to_bytes(k, byteorder='little')`); Python raises OverflowError when
      `n` does not fit, so that is demanded here. */
  function ToLE(n: nat, k: nat): (r: seq<byte>)
    requires n < Pow(256, k)
    ensures |r| == k
    ensures FromLE(r) == n
  {
    if k == 0 then []
    else
      DivMod256(n, k);
      [n % 256] + ToLE(n / 256, k - 1)
  }

  /** Reading a byte string back into an integer and writing it out at the
      same width gives the string back. */
  lemma {:induction false} ToLEFromLE(bs: seq<byte>)
    ensures ToLE(FromLE(bs), |bs|) == bs
  {
    if |bs| > 0 {
      var n := FromLE(bs);
      var rest := FromLE(bs[1..]);
      assert n % 256 == bs[0] && n / 256 == rest;
      ToLEFromLE(bs[1..]);
    }
  }

  /** `ToLE` is injective on the values that fit. */
  lemma ToLEInjective(m: nat, n: nat, k: nat)
    requires m < Pow(256, k) && n < Pow(256, k)
    requires ToLE(m, k) == ToLE(n, k)
    ensures m == n
  {
  }

  /** Reading a concatenation: the bytes of `t` sit above those of `s`. */
  lemma {:induction false} FromLEAppend(s: seq<byte>, t: seq<byte>)
    ensures FromLE(s + t) == FromLE(s) + Pow(256, |s|) * FromLE(t)
  {
    if |s| == 0 {
      assert s + t == t;
    } else {
      var rest := s[1..];
      assert (s + t)[1..] == rest + t;
      FromLEAppend(rest, t);
      Distribute(FromLE(rest), Pow(256, |rest|), FromLE(t));
    }
  }

  lemma Distribute(a: nat, p: nat, f: nat)
    ensures 256 * (a + p * f) == 256 * a + (256 * p) * f
  {
  }

  /** The value of `bs` read most significant byte first
      (`int.from_bytes(bs, byteorder='big')`). */
  function FromBE(bs: seq<byte>): (n: nat)
    ensures n < Pow(256, |bs|)
  {
    if |bs| == 0 then 0
    else
      var init := bs[..|bs| - 1];
      assert Pow(256, |bs|) == 256 * Pow(256, |init|);
      256 * FromBE(init) + bs[|bs| - 1]
  }

  /** A lowercase hexadecimal digit, `[0-9a-f]`. */
  predicate IsHexChar(c: char)
  {
    '0' <= c <= '9' || 'a' <= c <= 'f'
  }

  /** The lowercase hex digit for a value below 16 (what Python's `x` format
      writes). */
  function HexDigit(v: nat): (c: char)
    requires v < 16
    ensures IsHexChar(c)
  {
    if v < 10 then '0' + v as char else 'a' + (v - 10) as char
  }

  /** `s` is made only of lowercase hexadecimal digits. */
  predicate IsLowerHex(s: string)
  {
    forall j :: 0 <= j < |s| ==> IsHexChar(s[j])
  }

  /** The value of a lowercase hex digit. */
  function HexValue(c: char): (v: nat)
    requires IsHexChar(c)
    ensures v < 16 && HexDigit(v) == c
  {
    if '0' <= c <= '9' then (c - '0') as nat else (c - 'a') as nat + 10
  }

  /** `HexValue` undoes `HexDigit`, so distinct values give distinct digits. */
  lemma HexDigitRoundTrip(v: nat)
    requires v < 16
    ensures HexValue(HexDigit(v)) == v
  {
  }

  /** `n` written as exactly `w` lowercase hex digits, most significant first,
      left-padded with zeros: Python's `'{:0wx}'.format(n)` for an `n` below
      16^w (a wider `n` would print more than `w` digits). */
  function Hex(n: nat, w: nat): (r: string)
    requires n < Pow(16, w)
    ensures |r| == w
    ensures IsLowerHex(r)
  {
    if w == 0 then []
    else
      DivMod16(n, w);
      Hex(n / 16, w - 1) + [HexDigit(n % 16)]
  }

  /** Each byte as two lowercase hex digits, high nibble first, in order. */
  function ByteHex(bs: seq<byte>): (r: string)
    ensures |r| == 2 * |bs|
    ensures IsLowerHex(r)
  {
    if |bs| == 0 then []
    else
      var init := ByteHex(bs[..|bs| - 1]);
      var last := bs[|bs| - 1];
      init + [HexDigit(last / 16), HexDigit(last % 16)]
  }

  /** Byte `j` of `bs` is rendered at positions 2j (high nibble) and 2j + 1
      (low nibble). */
  lemma {:induction false} ByteHexAt(bs: seq<byte>, j: nat)
    requires j < |bs|
    ensures ByteHex(bs)[2 * j] == HexDigit(bs[j] / 16)
    ensures ByteHex(bs)[2 * j + 1] == HexDigit(bs[j] % 16)
  {
    var init := bs[..|bs| - 1];
    if j < |bs| - 1 {
      ByteHexAt(init, j);
      assert bs[j] == init[j];
    }
  }

  /** Reads pairs of hex digits back into bytes; the partner of `ByteHex`. */
  function ParseByteHex(h: string): (bs: seq<byte>)
    requires |h| % 2 == 0 && IsLowerHex(h)
    ensures |bs| == |h| / 2
  {
    if |h| == 0 then []
    else ParseByteHex(h[..|h| - 2]) + [16 * HexValue(h[|h| - 2]) + HexValue(h[|h| - 1])]
  }

  /** Parsing the per-byte rendering gives the bytes back, so `ByteHex` is injective. */
  lemma {:induction false} ParseByteHexRoundTrip(bs: seq<byte>)
    ensures ParseByteHex(ByteHex(bs)) == bs
  {
    if |bs| > 0 {
      var init := bs[..|bs| - 1];
      var x := bs[|bs| - 1];
      var h := ByteHex(bs);
      assert h == ByteHex(init) + [HexDigit(x / 16), HexDigit(x % 16)];
      assert h[..|h| - 2] == ByteHex(init);
      HexDigitRoundTrip(x / 16);
      HexDigitRoundTrip(x % 16);
      ParseByteHexRoundTrip(init);
      assert bs == init + [x];
    }
  }

  /** Rendering a big-endian reading of `bs` as 2|bs| hex digits is the same
      as rendering the bytes of `bs` one by one. */
  lemma {:induction false} HexOfBigEndian(bs: seq<byte>)
    ensures FromBE(bs) < Pow(16, 2 * |bs|)
    ensures Hex(FromBE(bs), 2 * |bs|) == ByteHex(bs)
  {
    PowSixteenSquared(|bs|);
    if |bs| > 0 {
      var init := bs[..|bs| - 1];
      var x := bs[|bs| - 1];
      HexOfBigEndian(init);
      assert FromBE(bs) == 256 * FromBE(init) + x;
      HexAppendByte(FromBE(init), x, 2 * |init|);
    }
  }

  /** Appending a byte to a number appends its two hex digits. */
  lemma HexAppendByte(n: nat, x: byte, w: nat)
    requires n < Pow(16, w)
    ensures 256 * n + x < Pow(16, w + 2)
    ensures Hex(256 * n + x, w + 2) == Hex(n, w) + [HexDigit(x / 16), HexDigit(x % 16)]
  {
    var v := 256 * n + x;
    NibbleSplit(n, x);
    assert Pow(16, w + 2) == 16 * (16 * Pow(16, w));
    DivMod16(v, w + 2);
    DivMod16(v / 16, w + 1);
    assert Hex(v, w + 2) == Hex(v / 16, w + 1) + [HexDigit(x % 16)];
    assert Hex(v / 16, w + 1) == Hex(n, w) + [HexDigit(x / 16)];
  }

  // ---- arithmetic helpers ----

  lemma DivMod256(n: nat, k: nat)
    requires k > 0 && n < Pow(256, k)
    ensures n / 256 < Pow(256, k - 1)
  {
  }

  lemma DivMod16(n: nat, k: nat)
    requires k > 0 && n < Pow(16, k)
    ensures n / 16 < Pow(16, k - 1)
  {
  }

  lemma NibbleSplit(n: nat, x: nat)
    requires x < 256
    ensures (256 * n + x) % 16 == x % 16
    ensures (256 * n + x) / 16 == 16 * n + x / 16
    ensures (16 * n + x / 16) % 16 == x / 16
    ensures (16 * n + x / 16) / 16 == n
  {
  }
}


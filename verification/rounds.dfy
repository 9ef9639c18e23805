/** The per-block compression of section 3.4 of RFC 1321: 64 rounds over four
    32-bit registers, each round mixing in one message word, one additive
    constant and one rotation, followed by the feed-forward addition into the
    incoming chaining state. All register arithmetic is on `bv32`, so every
    sum wraps mod 2^32 and `!` is the 32-bit complement; this is what the
    masks in `leftRotate` and at the end of each block do to Python's
    unbounded integers. */
module Rounds {
  import opened Bytes
  import opened Words

  /** The four registers A, B, C, D, in that order. */
  datatype State = State(a: bv32, b: bv32, c: bv32, d: bv32)

  /** Left-rotation amount for each of the 64 rounds (`rotate_by`), one row
      per group of sixteen rounds. */
  const RotateBy: seq<bv32> :=
    [7, 12, 17, 22, 7, 12, 17, 22, 7, 12, 17, 22, 7, 12, 17, 22] +
    [5, 9, 14, 20, 5, 9, 14, 20, 5, 9, 14, 20, 5, 9, 14, 20] +
    [4, 11, 16, 23, 4, 11, 16, 23, 4, 11, 16, 23, 4, 11, 16, 23] +
    [6, 10, 15, 21, 6, 10, 15, 21, 6, 10, 15, 21, 6, 10, 15, 21]

  /** The four shift amounts of each round group in section 3.4 of RFC 1321. */
  const GroupShifts: seq<seq<bv32>> :=
    [[7, 12, 17, 22], [5, 9, 14, 20], [4, 11, 16, 23], [6, 10, 15, 21]]

  /** The additive constants T[1..64] of section 3.4 of RFC 1321, the integer
      part of 2^32 * |sin(i + 1)|, written out as literals. */
  const Constants: seq<bv32> :=
    [0xd76aa478, 0xe8c7b756, 0x242070db, 0xc1bdceee,
     0xf57c0faf, 0x4787c62a, 0xa8304613, 0xfd469501,
     0x698098d8, 0x8b44f7af, 0xffff5bb1, 0x895cd7be,
     0x6b901122, 0xfd987193, 0xa679438e, 0x49b40821,
     0xf61e2562, 0xc040b340, 0x265e5a51, 0xe9b6c7aa,
     0xd62f105d, 0x02441453, 0xd8a1e681, 0xe7d3fbc8,
     0x21e1cde6, 0xc33707d6, 0xf4d50d87, 0x455a14ed,
     0xa9e3e905, 0xfcefa3f8, 0x676f02d9, 0x8d2a4c8a,
     0xfffa3942, 0x8771f681, 0x6d9d6122, 0xfde5380c,
     0xa4beea44, 0x4bdecfa9, 0xf6bb4b60, 0xbebfbc70,
     0x289b7ec6, 0xeaa127fa, 0xd4ef3085, 0x04881d05,
     0xd9d4d039, 0xe6db99e5, 0x1fa27cf8, 0xc4ac5665,
     0xf4292244, 0x432aff97, 0xab9423a7, 0xfc93a039,
     0x655b59c3, 0x8f0ccc92, 0xffeff47d, 0x85845dd1,
     0x6fa87e4f, 0xfe2ce6e0, 0xa3014314, 0x4e0811a1,
     0xf7537e82, 0xbd3af235, 0x2ad7d2bb, 0xeb86d391]

  /** Entry `i` of the rotation table is in 1..31 and is the entry of its
      group's row for the position of `i` within a cycle of four rounds. */
  predicate ShiftOk(i: nat)
    requires i < 64
  {
    1 <= RotateBy[i] <= 31 && RotateBy[i] == GroupShifts[i / 16][i % 4]
  }

  /** `ShiftOk` holds for every entry from `i` on. */
  predicate ShiftsCheckedFrom(i: nat)
    requires i <= 64
    decreases 64 - i
  {
    i == 64 || (ShiftOk(i) && ShiftsCheckedFrom(i + 1))
  }

  /** The whole table, checked entry by entry on the literal, eight entries
      per lemma (from the last entry down, since each `ShiftsCheckedFrom`
      rests on the next). */
  lemma ShiftsChecked()
    ensures ShiftsCheckedFrom(0)
  {
    ShiftsFrom8();
    assert ShiftsCheckedFrom(6); assert ShiftsCheckedFrom(4); assert ShiftsCheckedFrom(2); assert ShiftsCheckedFrom(0);
  }

  lemma ShiftsFrom8()
    ensures ShiftsCheckedFrom(8)
  {
    ShiftsFrom16();
    assert ShiftsCheckedFrom(14); assert ShiftsCheckedFrom(12); assert ShiftsCheckedFrom(10); assert ShiftsCheckedFrom(8);
  }

  lemma ShiftsFrom16()
    ensures ShiftsCheckedFrom(16)
  {
    ShiftsFrom24();
    assert ShiftsCheckedFrom(22); assert ShiftsCheckedFrom(20); assert ShiftsCheckedFrom(18); assert ShiftsCheckedFrom(16);
  }

  lemma ShiftsFrom24()
    ensures ShiftsCheckedFrom(24)
  {
    ShiftsFrom32();
    assert ShiftsCheckedFrom(30); assert ShiftsCheckedFrom(28); assert ShiftsCheckedFrom(26); assert ShiftsCheckedFrom(24);
  }

  lemma ShiftsFrom32()
    ensures ShiftsCheckedFrom(32)
  {
    ShiftsFrom40();
    assert ShiftsCheckedFrom(38); assert ShiftsCheckedFrom(36); assert ShiftsCheckedFrom(34); assert ShiftsCheckedFrom(32);
  }

  lemma ShiftsFrom40()
    ensures ShiftsCheckedFrom(40)
  {
    ShiftsFrom48();
    assert ShiftsCheckedFrom(46); assert ShiftsCheckedFrom(44); assert ShiftsCheckedFrom(42); assert ShiftsCheckedFrom(40);
  }

  lemma ShiftsFrom48()
    ensures ShiftsCheckedFrom(48)
  {
    ShiftsFrom56();
    assert ShiftsCheckedFrom(54); assert ShiftsCheckedFrom(52); assert ShiftsCheckedFrom(50); assert ShiftsCheckedFrom(48);
  }

  lemma ShiftsFrom56()
    ensures ShiftsCheckedFrom(56)
  {
    assert ShiftsCheckedFrom(62); assert ShiftsCheckedFrom(60); assert ShiftsCheckedFrom(58); assert ShiftsCheckedFrom(56);
  }

  lemma {:induction false} ShiftOkFrom(k: nat, i: nat)
    requires k <= i < 64 && ShiftsCheckedFrom(k)
    ensures ShiftOk(i)
    decreases i - k
  {
    if k < i {
      ShiftOkFrom(k + 1, i);
    }
  }

  /** The rotation amount of round `i`: never 0 or 32, and within each group
      of sixteen rounds the group's four amounts in turn. */
  function RotateAmount(i: nat): (n: bv32)
    requires i < 64
    ensures 1 <= n <= 31
    ensures n == GroupShifts[i / 16][i % 4]
  {
    ShiftsChecked();
    ShiftOkFrom(0, i);
    RotateBy[i]
  }

  /** Bit `k` of `x`, counting from the least significant bit. */
  predicate Bit(x: bv32, k: bv32)
    requires k < 32
  {
    (x >> k) & 1 == 1
  }

  /** `leftRotate`: a circular left shift of the low 32 bits. Python accepts
      any amount up to 32 (a larger one makes `32 - amount` a negative shift
      count, which raises). */
  function LeftRotate(x: bv32, n: bv32): bv32
    requires n <= 32
  {
    (x << n) | (x >> (32 - n))
  }

  /** `LeftRotate` is a left rotation: bit `k` of `x` lands at bit
      `(k + n) mod 32` of the result. The proof is by cases on the amount,
      four at a time. */
  lemma RotateBits(x: bv32, n: bv32, k: bv32)
    requires n <= 32 && k < 32
    ensures Bit(LeftRotate(x, n), (k + n) % 32) == Bit(x, k)
  {
    if n < 4 {
      RotateBitsBelow4(x, n, k);
    } else if n < 8 {
      RotateBitsBelow8(x, n, k);
    } else if n < 12 {
      RotateBitsBelow12(x, n, k);
    } else if n < 16 {
      RotateBitsBelow16(x, n, k);
    } else if n < 20 {
      RotateBitsBelow20(x, n, k);
    } else if n < 24 {
      RotateBitsBelow24(x, n, k);
    } else if n < 28 {
      RotateBitsBelow28(x, n, k);
    } else {
      RotateBitsUpTo32(x, n, k);
    }
  }

  lemma RotateBitsBelow4(x: bv32, n: bv32, k: bv32)
    requires n < 4 && k < 32
    ensures Bit(LeftRotate(x, n), (k + n) % 32) == Bit(x, k)
  {
    if n == 0 {
      RotateBitsByZero(x, n, k);
    } else if n == 1 {
      assert Bit(LeftRotate(x, 1), (k + 1) % 32) == Bit(x, k);
    } else if n == 2 {
      assert Bit(LeftRotate(x, 2), (k + 2) % 32) == Bit(x, k);
    } else {
      assert Bit(LeftRotate(x, 3), (k + 3) % 32) == Bit(x, k);
    }
  }

  lemma RotateBitsByZero(x: bv32, n: bv32, k: bv32)
    requires n == 0 && k < 32
    ensures Bit(LeftRotate(x, n), (k + n) % 32) == Bit(x, k)
  {
    assert LeftRotate(x, 0) == x;
  }

  lemma RotateBitsBelow8(x: bv32, n: bv32, k: bv32)
    requires 4 <= n < 8 && k < 32
    ensures Bit(LeftRotate(x, n), (k + n) % 32) == Bit(x, k)
  {
    if n == 4 {
      assert Bit(LeftRotate(x, 4), (k + 4) % 32) == Bit(x, k);
    } else if n == 5 {
      assert Bit(LeftRotate(x, 5), (k + 5) % 32) == Bit(x, k);
    } else if n == 6 {
      assert Bit(LeftRotate(x, 6), (k + 6) % 32) == Bit(x, k);
    } else {
      assert Bit(LeftRotate(x, 7), (k + 7) % 32) == Bit(x, k);
    }
  }

  lemma RotateBitsBelow12(x: bv32, n: bv32, k: bv32)
    requires 8 <= n < 12 && k < 32
    ensures Bit(LeftRotate(x, n), (k + n) % 32) == Bit(x, k)
  {
    if n == 8 {
      assert Bit(LeftRotate(x, 8), (k + 8) % 32) == Bit(x, k);
    } else if n == 9 {
      assert Bit(LeftRotate(x, 9), (k + 9) % 32) == Bit(x, k);
    } else if n == 10 {
      assert Bit(LeftRotate(x, 10), (k + 10) % 32) == Bit(x, k);
    } else {
      assert Bit(LeftRotate(x, 11), (k + 11) % 32) == Bit(x, k);
    }
  }

  lemma RotateBitsBelow16(x: bv32, n: bv32, k: bv32)
    requires 12 <= n < 16 && k < 32
    ensures Bit(LeftRotate(x, n), (k + n) % 32) == Bit(x, k)
  {
    if n == 12 {
      assert Bit(LeftRotate(x, 12), (k + 12) % 32) == Bit(x, k);
    } else if n == 13 {
      assert Bit(LeftRotate(x, 13), (k + 13) % 32) == Bit(x, k);
    } else if n == 14 {
      assert Bit(LeftRotate(x, 14), (k + 14) % 32) == Bit(x, k);
    } else {
      assert Bit(LeftRotate(x, 15), (k + 15) % 32) == Bit(x, k);
    }
  }

  lemma RotateBitsBelow20(x: bv32, n: bv32, k: bv32)
    requires 16 <= n < 20 && k < 32
    ensures Bit(LeftRotate(x, n), (k + n) % 32) == Bit(x, k)
  {
    if n == 16 {
      assert Bit(LeftRotate(x, 16), (k + 16) % 32) == Bit(x, k);
    } else if n == 17 {
      assert Bit(LeftRotate(x, 17), (k + 17) % 32) == Bit(x, k);
    } else if n == 18 {
      assert Bit(LeftRotate(x, 18), (k + 18) % 32) == Bit(x, k);
    } else {
      assert Bit(LeftRotate(x, 19), (k + 19) % 32) == Bit(x, k);
    }
  }

  lemma RotateBitsBelow24(x: bv32, n: bv32, k: bv32)
    requires 20 <= n < 24 && k < 32
    ensures Bit(LeftRotate(x, n), (k + n) % 32) == Bit(x, k)
  {
    if n == 20 {
      assert Bit(LeftRotate(x, 20), (k + 20) % 32) == Bit(x, k);
    } else if n == 21 {
      assert Bit(LeftRotate(x, 21), (k + 21) % 32) == Bit(x, k);
    } else if n == 22 {
      assert Bit(LeftRotate(x, 22), (k + 22) % 32) == Bit(x, k);
    } else {
      assert Bit(LeftRotate(x, 23), (k + 23) % 32) == Bit(x, k);
    }
  }

  lemma RotateBitsBelow28(x: bv32, n: bv32, k: bv32)
    requires 24 <= n < 28 && k < 32
    ensures Bit(LeftRotate(x, n), (k + n) % 32) == Bit(x, k)
  {
    if n == 24 {
      assert Bit(LeftRotate(x, 24), (k + 24) % 32) == Bit(x, k);
    } else if n == 25 {
      assert Bit(LeftRotate(x, 25), (k + 25) % 32) == Bit(x, k);
    } else if n == 26 {
      assert Bit(LeftRotate(x, 26), (k + 26) % 32) == Bit(x, k);
    } else {
      assert Bit(LeftRotate(x, 27), (k + 27) % 32) == Bit(x, k);
    }
  }

  lemma RotateBitsUpTo32(x: bv32, n: bv32, k: bv32)
    requires 28 <= n < 33 && k < 32
    ensures Bit(LeftRotate(x, n), (k + n) % 32) == Bit(x, k)
  {
    if n == 28 {
      assert Bit(LeftRotate(x, 28), (k + 28) % 32) == Bit(x, k);
    } else if n == 29 {
      assert Bit(LeftRotate(x, 29), (k + 29) % 32) == Bit(x, k);
    } else if n == 30 {
      assert Bit(LeftRotate(x, 30), (k + 30) % 32) == Bit(x, k);
    } else if n == 31 {
      assert Bit(LeftRotate(x, 31), (k + 31) % 32) == Bit(x, k);
    } else {
      assert Bit(LeftRotate(x, 32), (k + 32) % 32) == Bit(x, k);
    }
  }

  /** Rotating by `n` and then by `32 - n` gives the word back, so every
      rotation is a bijection on 32-bit words. The proof is by cases on the
      amount, eight at a time. */
  lemma RotateRoundTrip(x: bv32, n: bv32)
    requires n <= 32
    ensures LeftRotate(LeftRotate(x, n), 32 - n) == x
  {
    if n < 8 {
      RoundTripBelow8(x, n);
    } else if n < 16 {
      RoundTripBelow16(x, n);
    } else if n < 24 {
      RoundTripBelow24(x, n);
    } else {
      RoundTripUpTo32(x, n);
    }
  }

  lemma RoundTripBelow8(x: bv32, n: bv32)
    requires 0 <= n < 8
    ensures LeftRotate(LeftRotate(x, n), 32 - n) == x
  {
    if n == 0 {
      assert LeftRotate(LeftRotate(x, 0), 32) == x;
    } else if n == 1 {
      assert LeftRotate(LeftRotate(x, 1), 31) == x;
    } else if n == 2 {
      assert LeftRotate(LeftRotate(x, 2), 30) == x;
    } else if n == 3 {
      assert LeftRotate(LeftRotate(x, 3), 29) == x;
    } else if n == 4 {
      assert LeftRotate(LeftRotate(x, 4), 28) == x;
    } else if n == 5 {
      assert LeftRotate(LeftRotate(x, 5), 27) == x;
    } else if n == 6 {
      assert LeftRotate(LeftRotate(x, 6), 26) == x;
    } else {
      assert LeftRotate(LeftRotate(x, 7), 25) == x;
    }
  }

  lemma RoundTripBelow16(x: bv32, n: bv32)
    requires 8 <= n < 16
    ensures LeftRotate(LeftRotate(x, n), 32 - n) == x
  {
    if n == 8 {
      assert LeftRotate(LeftRotate(x, 8), 24) == x;
    } else if n == 9 {
      assert LeftRotate(LeftRotate(x, 9), 23) == x;
    } else if n == 10 {
      assert LeftRotate(LeftRotate(x, 10), 22) == x;
    } else if n == 11 {
      assert LeftRotate(LeftRotate(x, 11), 21) == x;
    } else if n == 12 {
      assert LeftRotate(LeftRotate(x, 12), 20) == x;
    } else if n == 13 {
      assert LeftRotate(LeftRotate(x, 13), 19) == x;
    } else if n == 14 {
      assert LeftRotate(LeftRotate(x, 14), 18) == x;
    } else {
      assert LeftRotate(LeftRotate(x, 15), 17) == x;
    }
  }

  lemma RoundTripBelow24(x: bv32, n: bv32)
    requires 16 <= n < 24
    ensures LeftRotate(LeftRotate(x, n), 32 - n) == x
  {
    if n == 16 {
      assert LeftRotate(LeftRotate(x, 16), 16) == x;
    } else if n == 17 {
      assert LeftRotate(LeftRotate(x, 17), 15) == x;
    } else if n == 18 {
      assert LeftRotate(LeftRotate(x, 18), 14) == x;
    } else if n == 19 {
      assert LeftRotate(LeftRotate(x, 19), 13) == x;
    } else if n == 20 {
      assert LeftRotate(LeftRotate(x, 20), 12) == x;
    } else if n == 21 {
      assert LeftRotate(LeftRotate(x, 21), 11) == x;
    } else if n == 22 {
      assert LeftRotate(LeftRotate(x, 22), 10) == x;
    } else {
      assert LeftRotate(LeftRotate(x, 23), 9) == x;
    }
  }

  lemma RoundTripUpTo32(x: bv32, n: bv32)
    requires 24 <= n < 33
    ensures LeftRotate(LeftRotate(x, n), 32 - n) == x
  {
    if n == 24 {
      assert LeftRotate(LeftRotate(x, 24), 8) == x;
    } else if n == 25 {
      assert LeftRotate(LeftRotate(x, 25), 7) == x;
    } else if n == 26 {
      assert LeftRotate(LeftRotate(x, 26), 6) == x;
    } else if n == 27 {
      assert LeftRotate(LeftRotate(x, 27), 5) == x;
    } else if n == 28 {
      assert LeftRotate(LeftRotate(x, 28), 4) == x;
    } else if n == 29 {
      assert LeftRotate(LeftRotate(x, 29), 3) == x;
    } else if n == 30 {
      assert LeftRotate(LeftRotate(x, 30), 2) == x;
    } else if n == 31 {
      assert LeftRotate(LeftRotate(x, 31), 1) == x;
    } else {
      assert LeftRotate(LeftRotate(x, 32), 0) == x;
    }
  }

  /** The four auxiliary functions of section 3.4 of RFC 1321, one per group
      of sixteen rounds. */
  function F(x: bv32, y: bv32, z: bv32): bv32
  {
    (x & y) | (!x & z)
  }

  function G(x: bv32, y: bv32, z: bv32): bv32
  {
    (z & x) | (!z & y)
  }

  function H(x: bv32, y: bv32, z: bv32): bv32
  {
    x ^ y ^ z
  }

  function I(x: bv32, y: bv32, z: bv32): bv32
  {
    y ^ (x | !z)
  }

  /** The round function of round `i` (`func`). */
  function Mix(i: nat, b: bv32, c: bv32, d: bv32): bv32
    requires i < 64
  {
    if i < 16 then F(b, c, d)
    else if i < 32 then G(b, c, d)
    else if i < 48 then H(b, c, d)
    else I(b, c, d)
  }

  /** F is a bitwise conditional: where X is set it takes Y, elsewhere Z. */
  lemma FBit(x: bv32, y: bv32, z: bv32, k: bv32)
    requires k < 32
    ensures Bit(F(x, y, z), k) == if Bit(x, k) then Bit(y, k) else Bit(z, k)
  {
    SelectBit(x, y, z, k);
  }

  /** G is the conditional with Z as the selector: where Z is set it takes X,
      elsewhere Y. */
  lemma GBit(x: bv32, y: bv32, z: bv32, k: bv32)
    requires k < 32
    ensures Bit(G(x, y, z), k) == if Bit(z, k) then Bit(x, k) else Bit(y, k)
  {
    SelectBit(z, x, y, k);
  }

  /** H is bitwise parity. */
  lemma HBit(x: bv32, y: bv32, z: bv32, k: bv32)
    requires k < 32
    ensures Bit(H(x, y, z), k) == ((Bit(x, k) != Bit(y, k)) != Bit(z, k))
  {
    ParityBit(x, y, z, k);
  }

  /** I flips Y exactly where X is set or Z is clear. */
  lemma IBit(x: bv32, y: bv32, z: bv32, k: bv32)
    requires k < 32
    ensures Bit(I(x, y, z), k) == (Bit(y, k) != (Bit(x, k) || !Bit(z, k)))
  {
  }

  lemma SelectBit(s: bv32, y: bv32, z: bv32, k: bv32)
    requires k < 32
    ensures Bit((s & y) | (!s & z), k) == if Bit(s, k) then Bit(y, k) else Bit(z, k)
  {
  }

  lemma ParityBit(x: bv32, y: bv32, z: bv32, k: bv32)
    requires k < 32
    ensures Bit(x ^ y ^ z, k) == ((Bit(x, k) != Bit(y, k)) != Bit(z, k))
  {
  }

  /** The message word read in round `i` (`index_func`). */
  function WordIndex(i: nat): (g: nat)
    requires i < 64
    ensures g < 16
  {
    if i < 16 then i
    else if i < 32 then (5 * i + 1) % 16
    else if i < 48 then (3 * i + 5) % 16
    else (7 * i) % 16
  }

  /** The round of group `grp` that reads word `w`: 5, 3 and 7 are invertible
      mod 16 (by 13, 11 and 7), so each index formula can be solved for the
      round. */
  function GroupRound(grp: nat, w: nat): (j: nat)
    requires grp < 4 && w < 16
    ensures j < 16
  {
    if grp == 0 then w
    else if grp == 1 then (13 * (w + 15)) % 16
    else if grp == 2 then (11 * (w + 11)) % 16
    else (7 * w) % 16
  }

  /** Within each group of sixteen rounds every message word is read exactly
      once: `GroupRound` is a two-sided inverse of the index function on
      the group's rounds. */
  lemma GroupReadsEveryWordOnce(grp: nat, j: nat, w: nat)
    requires grp < 4 && j < 16 && w < 16
    ensures WordIndex(16 * grp + GroupRound(grp, w)) == w
    ensures GroupRound(grp, WordIndex(16 * grp + j)) == j
  {
    if grp == 1 {
      SecondGroupInverse(j, w);
    } else if grp == 2 {
      ThirdGroupInverse(j, w);
    } else if grp == 3 {
      FourthGroupInverse(j, w);
    }
  }

  /** Hence distinct rounds of one group read distinct words. */
  lemma GroupWordInjective(grp: nat, j: nat, k: nat)
    requires grp < 4 && j < 16 && k < 16
    requires WordIndex(16 * grp + j) == WordIndex(16 * grp + k)
    ensures j == k
  {
    GroupReadsEveryWordOnce(grp, j, 0);
    GroupReadsEveryWordOnce(grp, k, 0);
  }

  // ---- the three inverses, by linear arithmetic mod 16 ----

  lemma Mod16(n: int, q: int, r: int)
    requires n == 16 * q + r && 0 <= r < 16
    ensures n % 16 == r
  {
  }

  lemma SecondGroupInverse(j: nat, w: nat)
    requires j < 16 && w < 16
    ensures (5 * (16 + (13 * (w + 15)) % 16) + 1) % 16 == w
    ensures (13 * ((5 * (16 + j) + 1) % 16 + 15)) % 16 == j
  {
    var x, y := 13 * (w + 15), 5 * (16 + j) + 1;
    assert x == 16 * (x / 16) + x % 16;
    assert y == 16 * (y / 16) + y % 16;
    Mod16(5 * (16 + x % 16) + 1, 4 * w + 66 - 5 * (x / 16), w);
    Mod16(13 * (y % 16 + 15), 4 * j + 78 - 13 * (y / 16), j);
  }

  lemma ThirdGroupInverse(j: nat, w: nat)
    requires j < 16 && w < 16
    ensures (3 * (32 + (11 * (w + 11)) % 16) + 5) % 16 == w
    ensures (11 * ((3 * (32 + j) + 5) % 16 + 11)) % 16 == j
  {
    var x, y := 11 * (w + 11), 3 * (32 + j) + 5;
    assert x == 16 * (x / 16) + x % 16;
    assert y == 16 * (y / 16) + y % 16;
    Mod16(3 * (32 + x % 16) + 5, 2 * w + 29 - 3 * (x / 16), w);
    Mod16(11 * (y % 16 + 11), 2 * j + 77 - 11 * (y / 16), j);
  }

  lemma FourthGroupInverse(j: nat, w: nat)
    requires j < 16 && w < 16
    ensures (7 * (48 + (7 * w) % 16)) % 16 == w
    ensures (7 * ((7 * (48 + j)) % 16)) % 16 == j
  {
    var x, y := 7 * w, 7 * (48 + j);
    assert x == 16 * (x / 16) + x % 16;
    assert y == 16 * (y / 16) + y % 16;
    Mod16(7 * (48 + x % 16), 3 * w + 21 - 7 * (x / 16), w);
    Mod16(7 * (y % 16), 3 * j + 147 - 7 * (y / 16), j);
  }

  /** Message word `g` of a block: `block[4g:4g+4]` read little-endian.
      The source slices without checking, and Python clamps slices, so a
      short block yields a short (or empty) word. */
  function BlockWord(block: seq<byte>, g: nat): bv32
  {
    WordFromLE(Slice(block, 4 * g, 4 * g + 4))
  }

  /** The word's value is `int.from_bytes(block[4g:4g+4], 'little')`,
      short slices included. */
  lemma BlockWordValue(block: seq<byte>, g: nat)
    ensures WordValue(BlockWord(block, g)) == FromLE(Slice(block, 4 * g, 4 * g + 4))
  {
    WordFromLEValue(Slice(block, 4 * g, 4 * g + 4));
  }

  /** In a full 64-byte block, the slice every round reads is four bytes
      long and lies inside the block. */
  lemma RoundWordInBlock(block: seq<byte>, i: nat)
    requires |block| == 64 && i < 64
    ensures var g := WordIndex(i);
      4 * g + 4 <= |block| &&
      Slice(block, 4 * g, 4 * g + 4) == block[4 * g..4 * g + 4] &&
      WordBytes(BlockWord(block, g)) == block[4 * g..4 * g + 4]
  {
    BlockWordBytes(block, WordIndex(i));
  }

  /** A word that lies inside the block is read whole: its four bytes are
      `block[4g..4g+4]`. */
  lemma BlockWordBytes(block: seq<byte>, g: nat)
    requires 4 * g + 4 <= |block|
    ensures WordBytes(BlockWord(block, g)) == block[4 * g..4 * g + 4]
  {
    WordFromLEBytes(block[4 * g..4 * g + 4]);
  }

  /** Wrapping 32-bit addition: Python's `+` followed by the `& 0xFFFFFFFF`
      mask. Named, like `Minus`, so that the round proofs can cancel terms
      without expanding the arithmetic. */
  function Plus(x: bv32, y: bv32): bv32
  {
    x + y
  }

  /** Wrapping 32-bit subtraction. */
  function Minus(x: bv32, y: bv32): bv32
  {
    x - y
  }

  /** Subtracting the first term of a sum leaves the second ... */
  lemma PlusThenMinusFirst(p: bv32, q: bv32)
    ensures Minus(Plus(p, q), p) == q
  {
    assert Plus(p, q) == p + q;
    assert Minus(p + q, p) == (p + q) - p;
  }

  /** ... subtracting the second leaves the first ... */
  lemma PlusThenMinus(p: bv32, q: bv32)
    ensures Minus(Plus(p, q), q) == p
  {
    assert Plus(p, q) == p + q;
    assert Minus(p + q, q) == (p + q) - q;
  }

  /** ... adding back what was subtracted gives the minuend back ... */
  lemma MinusThenPlus(x: bv32, q: bv32)
    ensures Plus(Minus(x, q), q) == x
  {
    assert Minus(x, q) == x - q;
    assert Plus(x - q, q) == (x - q) + q;
  }

  /** ... in either order. */
  lemma MinusThenPlusFirst(x: bv32, q: bv32)
    ensures Plus(q, Minus(x, q)) == x
  {
    assert Minus(x, q) == x - q;
    assert Plus(q, x - q) == q + (x - q);
  }

  /** Rotating by `32 - n` and then by `n` also gives the word back. */
  lemma RotateBackRoundTrip(x: bv32, n: bv32)
    requires n <= 32
    ensures LeftRotate(LeftRotate(x, 32 - n), n) == x
  {
    RotateRoundTrip(x, 32 - n);
    assert 32 - (32 - n) == n;
  }

  /** The new B of one round: B + ((A + f + k + w) <<< n), where `f` is the
      round function's value, `k` the additive constant and `w` the message
      word. */
  function NewB(a: bv32, b: bv32, f: bv32, k: bv32, w: bv32, n: bv32): bv32
    requires n <= 32
  {
    Plus(b, LeftRotate(Plus(Plus(Plus(a, f), k), w), n))
  }

  /** The A that `NewB` consumed, recovered from its result and the other
      inputs: subtract B, rotate back by `32 - n`, subtract the addends. */
  function OldA(v: bv32, b: bv32, f: bv32, k: bv32, w: bv32, n: bv32): bv32
    requires n <= 32
  {
    Minus(Minus(Minus(LeftRotate(Minus(v, b), 32 - n), w), k), f)
  }

  /** For fixed B, f, k, w and n, `NewB` is a bijection in A with inverse
      `OldA`: this direction ... */
  lemma OldANewB(a: bv32, b: bv32, f: bv32, k: bv32, w: bv32, n: bv32)
    requires n <= 32
    ensures OldA(NewB(a, b, f, k, w, n), b, f, k, w, n) == a
  {
    var x := Plus(Plus(Plus(a, f), k), w);
    PlusThenMinusFirst(b, LeftRotate(x, n));
    RotateRoundTrip(x, n);
    PlusThenMinus(Plus(Plus(a, f), k), w);
    PlusThenMinus(Plus(a, f), k);
    PlusThenMinus(a, f);
  }

  /** ... and this one. */
  lemma NewBOldA(v: bv32, b: bv32, f: bv32, k: bv32, w: bv32, n: bv32)
    requires n <= 32
    ensures NewB(OldA(v, b, f, k, w, n), b, f, k, w, n) == v
  {
    var y := Minus(v, b);
    var x := LeftRotate(y, 32 - n);
    MinusThenPlus(Minus(Minus(x, w), k), f);
    MinusThenPlus(Minus(x, w), k);
    MinusThenPlus(x, w);
    RotateBackRoundTrip(y, n);
    MinusThenPlusFirst(v, b);
  }

  /** One round `i`: A takes the new B and the registers shift,
      (A, B, C, D) := (D, new B, B, C). `Unstep` undoes it, so every round
      is injective on register states. */
  function Step(i: nat, s: State, block: seq<byte>): (r: State)
    requires i < 64
    ensures Unstep(i, r, block) == s
  {
    var f := Mix(i, s.b, s.c, s.d);
    OldANewB(s.a, s.b, f, Constants[i], BlockWord(block, WordIndex(i)), RotateAmount(i));
    State(s.d, NewB(s.a, s.b, f, Constants[i], BlockWord(block, WordIndex(i)), RotateAmount(i)), s.b, s.c)
  }

  /** Round `i` run backwards: B, C and D of the earlier state are C, D and
      A now, and the earlier A comes out of the new B through `OldA`. */
  function Unstep(i: nat, s: State, block: seq<byte>): (r: State)
    requires i < 64
    ensures r.b == s.c && r.c == s.d && r.d == s.a
  {
    var b, c, d := s.c, s.d, s.a;
    State(OldA(s.b, b, Mix(i, b, c, d), Constants[i], BlockWord(block, WordIndex(i)), RotateAmount(i)), b, c, d)
  }

  /** `Step` undoes `Unstep`, so every round is also onto. */
  lemma StepUnstep(i: nat, s: State, block: seq<byte>)
    requires i < 64
    ensures Step(i, Unstep(i, s, block), block) == s
  {
    NewBOldA(s.b, s.c, Mix(i, s.c, s.d, s.a), Constants[i], BlockWord(block, WordIndex(i)), RotateAmount(i));
  }

  /** The working registers after rounds 0 .. n-1 from `s`. */
  function Run(s: State, block: seq<byte>, n: nat): State
    requires n <= 64
  {
    if n == 0 then s else Step(n - 1, Run(s, block, n - 1), block)
  }

  /** Distinct starting states stay distinct through any number of rounds. */
  lemma {:induction false} RunInjective(s1: State, s2: State, block: seq<byte>, n: nat)
    requires n <= 64
    requires Run(s1, block, n) == Run(s2, block, n)
    ensures s1 == s2
  {
    if n > 0 {
      RunInjective(s1, s2, block, n - 1);
    }
  }

  /** The next chaining state: the working registers after all 64 rounds,
      added word by word to the incoming state (the feed-forward). */
  function Compress(s: State, block: seq<byte>): State
  {
    var w := Run(s, block, 64);
    State(Plus(s.a, w.a), Plus(s.b, w.b), Plus(s.c, w.c), Plus(s.d, w.d))
  }

  /** Given the incoming state, the registers after the 64 rounds can be
      read back off the next chaining state. */
  lemma FeedForward(s: State, block: seq<byte>)
    ensures var r, w := Compress(s, block), Run(s, block, 64);
      Minus(r.a, s.a) == w.a && Minus(r.b, s.b) == w.b &&
      Minus(r.c, s.c) == w.c && Minus(r.d, s.d) == w.d
  {
    var w := Run(s, block, 64);
    PlusThenMinusFirst(s.a, w.a);
    PlusThenMinusFirst(s.b, w.b);
    PlusThenMinusFirst(s.c, w.c);
    PlusThenMinusFirst(s.d, w.d);
  }

  /** One block as the loop in `processMessage` computes it: copy the
      chaining state into A, B, C, D, run the 64 rounds in place, then add
      the registers back. */
  method CompressBlock(s: State, block: seq<byte>) returns (r: State)
    ensures r == Compress(s, block)
  {
    var a, b, c, d := s.a, s.b, s.c, s.d;
    for i := 0 to 64
      invariant State(a, b, c, d) == Run(s, block, i)
    {
      var f := Mix(i, b, c, d);
      var g := WordIndex(i);
      var newB := NewB(a, b, f, Constants[i], BlockWord(block, g), RotateAmount(i));
      a, b, c, d := d, newB, b, c;
    }
    r := State(Plus(s.a, a), Plus(s.b, b), Plus(s.c, c), Plus(s.d, d));
  }
}

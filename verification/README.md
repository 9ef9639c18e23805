# MD5 digest engine, modelled in Dafny

This project models the MD5 engine of `md5.py`, which follows RFC 1321. The
engine has four stages:

1. **Padder** (`pad`). It appends 0x80, then zero bytes up to 56 mod 64,
   then the bit length mod 2^64 as 8 little-endian bytes.
2. **Compressor**. This is the body of the block loop in `processMessage`:
   - 64 rounds over four 32-bit registers A, B, C, D;
   - each group of sixteen rounds has its own boolean function and its own
     message-word index formula;
   - rotation amounts come from `rotate_by` and go through `leftRotate`;
   - the feed-forward adds the registers back into the incoming chaining
     state.
3. **Driver**. It folds the compressor over the message's 64-byte slices,
   left to right, starting from `init_MDBuffer`.
4. **Formatter**. It packs the four words into one 128-bit integer, and
   `MD_to_hex` renders it as 32 lowercase hex digits.

Modules, one per concern:

- `Bytes` (`bytes.dfy`):
  - bytes as integers in [0, 256);
  - Python's `int.to_bytes` and `int.from_bytes` in both byte orders;
  - Python's clamped slice `bs[lo:hi]`;
  - the `'{:0wx}'` hex format.
- `Words` (`words.dfy`): 32-bit words and their little-endian bytes.
- `Padding` (`padding.dfy`): `pad`.
- `Rounds` (`rounds.dfy`):
  - the rotation and additive-constant tables;
  - `leftRotate`;
  - the round functions and index functions;
  - one round and its inverse;
  - the 64-round run;
  - per-block compression.
- `Digest` (`digest.dfy`):
  - the initial buffer;
  - the block fold;
  - the packing;
  - `MD_to_hex`;
  - the pure part of `md5`.

Registers are `bv32`. Every sum therefore wraps mod 2^32, and `!` is the
32-bit complement. This is what the masks in `leftRotate` (md5.py:46-47), on
`newB` (md5.py:92) and after the feed-forward (md5.py:100) do to Python's
unbounded integers. Because the registers are `bv32`, no register can hold
a value of 2^32 or more. This covers the bound on `leftRotate`'s result and
the bound on every state word after every round and every block.
`WordValue` maps a register to the integer Python holds, through its
little-endian bytes.

RFC 1321 only ever compresses whole 64-byte blocks. `processMessage` never
checks: it slices
`msg[offset:offset + 64]` and `block[4*G:4*G + 4]`, and Python clamps slices.
So the model also accepts short trailing blocks:
- `Slice` reproduces the clamping;
- `BlockWord` reads a short slice as a short little-endian word;
- `Blocks` compresses a short last block as it is.

Through `Md5` this never happens, because `Pad` always yields a whole number
of blocks (`Digest.PaddedBlocksAreWhole`).

## Model

| member | source | states |
|---|---|---|
| Padding.Pad | md5.py:20-35 | The padded message is a positive multiple of 64 bytes, between len+9 and len+72 long. It starts with the message, has 0x80 at index len and zeros up to the last 8 bytes, and the last 8 bytes are the little-endian (8·len) mod 2^64. |
| Padding.PadLoop | md5.py:20-35 | The padder written as `pad` writes it computes exactly `Pad`. It appends 0x80, appends zeros while the length is not 56 mod 64, then appends the length field. |
| Padding.ZeroCount | md5.py:24-25 | The zero run is shorter than 64 and brings message + 0x80 to 56 mod 64. |
| Padding.LengthField | md5.py:21 | The length field is 8 bytes whose little-endian value is (8·len) mod 2^64. |
| Padding.PadBlockCount | md5.py:22-32 | The padded length is 64·((len+8)/64 + 1). So 55 bytes pad to 64, and 56, 57 and 64 bytes pad to 128. |
| Padding.PadInjective | md5.py:20-35 | Equal padded forms mean equal messages, at every length: the 0x80 marker at index len fixes the length even when the length field has wrapped mod 2^64. |
| Bytes.ToLE | md5.py:32 | `to_bytes(k, 'little')` yields k bytes whose little-endian reading is the number. |
| Bytes.ToLEFromLE | md5.py:111 | Writing out the little-endian value of a byte string at its own width gives the string back. |
| Bytes.FromBE | md5.py:112 | `from_bytes(.., 'big')` of k bytes is below 256^k. |
| Bytes.Hex | md5.py:112 | `'{:0wx}'` of a number below 16^w is exactly w lowercase hex digits. |
| Bytes.HexOfBigEndian | md5.py:111-112 | Rendering the big-endian value of bytes as 2·len hex digits equals rendering each byte as two digits, high nibble first. |
| Bytes.ByteHexAt | md5.py:112 | Characters 2j and 2j+1 of the per-byte rendering are the high and low nibble of byte j. |
| Bytes.ParseByteHexRoundTrip | md5.py:112 | Parsing the per-byte rendering gives the bytes back, so the rendering is injective. |
| Bytes.Slice | md5.py:61 | A slice `bs[lo:hi]` is at most hi−lo long. It is `bs[lo..hi]` when hi is within bounds, is cut at the end otherwise, and is empty from the end on. |
| Words.WordFromLEBytes | md5.py:91 | The word read from at most four bytes has those bytes as its little-endian encoding, padded with zeros. |
| Words.WordFromLEValue | md5.py:91 | The word read from at most four bytes has the value `int.from_bytes(bs, 'little')`. |
| Words.WordRoundTrip | md5.py:91 | Reading a word's four encoded bytes gives the word back. |
| Words.WordBytesInjective | md5.py:106-111 | Distinct words have distinct byte encodings. |
| Words.WordValue | md5.py:106 | A register's integer value is below 2^32, and its 4 little-endian bytes are the word's bytes. |
| Rounds.RotateAmount | md5.py:7-10 | Every entry of `rotate_by` lies in 1..31. Entry i is the (i mod 4)-th shift of group i/16. |
| Rounds.RotateBits | md5.py:45-47 | `leftRotate` by n ≤ 32 is a left rotation: bit k of x is bit (k+n) mod 32 of the result. |
| Rounds.RotateRoundTrip | md5.py:45-47 | `leftRotate` by n and then by 32−n gives the word back, for every n ≤ 32. |
| Rounds.RotateBackRoundTrip | md5.py:45-47 | Rotating by 32−n and then by n also gives the word back. |
| Rounds.FBit | md5.py:66 | Round-1 `func` is a bitwise conditional: where B is set it takes C, elsewhere D. |
| Rounds.GBit | md5.py:72 | Round-2 `func` is the conditional selected by D: where D is set it takes B, elsewhere C. |
| Rounds.HBit | md5.py:78 | Round-3 `func` is bitwise parity of B, C, D. |
| Rounds.IBit | md5.py:84 | Round-4 `func` flips C exactly where B is set or D is clear. |
| Rounds.WordIndex | md5.py:64-89 | The word index G of every round lies in [0, 16), so the slice `block[4G:4G+4]` starts inside a 64-byte block. |
| Rounds.GroupReadsEveryWordOnce | md5.py:64-89 | Within each group of sixteen rounds, the index function and `GroupRound` are mutually inverse. So every word 0..15 is read exactly once. |
| Rounds.GroupWordInjective | md5.py:64-89 | Distinct rounds of one group read distinct words. |
| Rounds.RoundWordInBlock | md5.py:88-91 | In a 64-byte block, the slice `block[4G:4G+4]` of every round is four bytes inside the block, and the round's word encodes exactly those bytes. |
| Rounds.BlockWordValue | md5.py:91 | The message word of a round has the value `int.from_bytes(block[4G:4G+4], 'little')`, short slices included. |
| Rounds.BlockWordBytes | md5.py:91 | A word inside the block has the four bytes `block[4G..4G+4]` as its encoding. |
| Rounds.OldANewB | md5.py:91-92 | For fixed B, F, constant, word and amount, `newB` is injective in A. `OldA` recovers A from it. |
| Rounds.NewBOldA | md5.py:91-92 | Every new B value is reached: `newB` of `OldA(v)` is v. |
| Rounds.Step | md5.py:87-94 | Running the round backwards with `Unstep` recovers the state before it, so each round is injective on register states. |
| Rounds.StepUnstep | md5.py:87-94 | A round undoes `Unstep`, so each round is onto. |
| Rounds.RunInjective | md5.py:63-94 | Distinct register states stay distinct through any number of rounds of one block. |
| Rounds.FeedForward | md5.py:98-100 | The next chaining state is the incoming state plus the final registers, word by word, mod 2^32. Subtracting the incoming state gives the registers after the 64 rounds. |
| Rounds.CompressBlock | md5.py:60-100 | The in-place loop computes `Compress`. It copies the chaining state, runs 64 rounds with the shift (A, B, C, D) := (D, newB, B, C), and adds the registers back. |
| Digest.BlocksOfOne | md5.py:59-61 | Folding over exactly one 64-byte block is one compression. |
| Digest.FoldAppend | md5.py:55-100 | For a block-aligned u, folding over u ++ v equals folding over v from the state reached after u. |
| Digest.BlocksFrom | md5.py:59-61 | One turn of the block loop compresses the slice `msg[offset:offset+64]` and continues 64 bytes on. |
| Digest.ProcessMessageLoop | md5.py:54-106 | The offset loop as written, stepping 64 bytes and compressing each clamped slice, computes the fold from the initial buffer, packed. |
| Digest.ProcessMessage | md5.py:54-106 | `processMessage` gives a value below 2^128. Its 16 little-endian bytes are the final state's bytes. |
| Digest.Pack | md5.py:106 | `sum(word << 32i)` is below 2^128, and its 16 little-endian bytes are A's bytes, then B's, C's and D's, each least significant first. |
| Digest.PackIsLittleEndian | md5.py:106 | The packed value equals the little-endian reading of the state's 16 bytes. |
| Digest.StateBytesAt | md5.py:106 | State byte j is byte j mod 4 of register j/4. |
| Digest.StateBytesInjective | md5.py:106 | Distinct states have distinct byte strings. |
| Digest.MdToHex | md5.py:109-112 | `MD_to_hex` yields exactly 32 lowercase hex characters. They are the 16 little-endian bytes of the digest, each as two hex digits, in order. |
| Digest.DigestLayout | md5.py:106-112 | Characters 2j and 2j+1 of the rendered state are the high and low nibble of byte j mod 4 (least significant first) of register j/4. |
| Digest.RenderedState | md5.py:106-112 | Parsing the rendered digest of a state gives the state's bytes back. |
| Digest.FormatInjective | md5.py:106-112 | Distinct final states give distinct hex strings. |
| Digest.Md5 | md5.py:115-120 | `md5` without encoding and printing is 32 lowercase hex characters. Read back as bytes, they are the final chaining state of the padded message. |
| Digest.BlocksAreWhole | md5.py:59-61 | On a message whose length is a multiple of 64, the clamped slices of the block loop are all whole 64-byte blocks: the fold equals the fold over whole blocks. |
| Digest.PaddedBlocksAreWhole | md5.py:115-118 | The padded message is a multiple of 64 bytes, so every block compressed on the way to the digest is a whole block. |
| Digest.PrefixChaining | md5.py:115-118 | For a block-aligned prefix u, the fold over the padded u ++ v continues from the state after u. |

## Left out

- The sine-derived constants (md5.py:13) are left out because they are floating point. `Rounds.Constants` holds the literal T table of section 3.4 of RFC 1321 instead.
- The ASCII encoding in `md5` (md5.py:116) is left out. `Md5` takes the bytes directly, so a non-ASCII string, for which Python raises `UnicodeEncodeError`, is not modelled.
- The `print` in `md5` (md5.py:121) and the `input()` entry point (md5.py:124-126) are I/O and are left out.
- The in-place mutation of the `bytearray` in `pad` (md5.py:22, 25, 32) is modelled by a pure sequence function. The caller hands `pad` a fresh copy (md5.py:116), so the mutation is not observable.
- The commented-out code after md5.py:129 is dead and not part of this model.
- Known-answer digests, such as the test suite of appendix A.5 of RFC 1321, are not stated as lemmas. Evaluating 64 symbolic rounds per block is beyond the verifier.
- Avalanche and collision-resistance claims are left out because they are statistical or cryptographic rather than functional.
- No lemma relates Python's unbounded-integer round arithmetic to the `bv32` arithmetic. The registers are `bv32` by construction. The model relies on the masks at md5.py:46, 92 and 100 making the two agree mod 2^32. This covers the negative values that `~` produces in round 4 (md5.py:84) and in `to_rotate` (md5.py:91).
- Rounds.LeftRotate carries no contract of its own. Its result is a `bv32`, so it is below 2^32 by type. `RotateBits` states that it moves every bit k to position (k+n) mod 32, and `RotateRoundTrip` and `RotateBackRoundTrip` that rotations by n and 32−n undo each other.
- Bytes.Hex covers `'{:032x}'` only for values below 16^32. A larger value would print more digits. `MD_to_hex` never produces one, because `to_bytes(16)` raises first, and `MdToHex` requires its argument to fit.

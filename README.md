# RIPEMD-160 streaming hasher

A Dafny model of the streaming engine of the `ripemd160` crate
(`ripemd160/src/lib.rs`). The `Ripemd160` hasher holds five 32-bit
chaining words `h`, a count `len` of the bytes taken in, and a 64-byte block
buffer. Three operations act on it:

- `process` adds the input length to the counter. It passes every 64-byte
  block completed by the input to the compression function, which updates
  `h`.
- `fixed_result` pads the pending bytes with MD strengthening. The padding
  is a 0x80 byte, zeros up to 56 mod 64, and the bit length as a 64-bit
  little-endian value. This is the scheme of sections 3.1 and 3.2 of
  RFC 1320, which RIPEMD-160 reuses. It compresses the one or two blocks
  this gives, then writes the five words out little-endian as the 20-byte
  digest.
- `reset` returns a copy of the state as it was and puts the hasher back in
  its initial state.

The compression function and the initial chaining value live in the
crate's `block` module. That module is not part of this model. Here they
are the constants `Block.Compress` and `Block.H0`, which are declared but
given no value. Every property below therefore holds for any compression
function and any initial value.

Layout:

- `little_endian.dfy` (module `LittleEndian`): little-endian byte
  encoding. Bytes and words are the integer types `u8` and `u32`.
- `block.dfy` (module `Block`): the chaining state, the 64-byte block type,
  and the abstract `H0` and `Compress`.
- `block_buffer.dfy` (module `BlockBuffer`): the observable contract of the
  64-byte block buffer. `Blocks` gives a stream's complete blocks in order,
  `Pending` its leftover tail, and `Absorb` the chaining value after
  compressing those blocks.
- `padding.dfy` (module `Padding`): the padding of a message, `Pad`, and how
  it relates to padding only the pending bytes.
- `ripemd160.dfy` (module `Ripemd160`): the reference `Digest` of a whole
  message and the `Ripemd160` class with its operations.

The class has a ghost field `taken` holding every byte taken in since
creation or the last reset. Its invariant `Valid()` ties the real fields
to that field: `h == Absorb(H0, taken)`, `pending == Pending(taken)` and
`len == |taken|`. This is how `FixedResult` is proved to return
`Digest(taken)`.

The crate has no digest-returning `finalize_reset`. Its `reset` returns the
pre-reset clone, which the caller then finalises, and the model follows
that shape. `ResetThenHash` shows that
finalising the returned clone gives the digest of the earlier input.

## Model

| member | source | states |
|---|---|---|
| `LittleEndian.FromToLe` | ripemd160/src/lib.rs:77-78 | a value below 256^n, such as the 64-bit bit length, read back from its n little-endian bytes is the value itself |
| `LittleEndian.ToFromLe` | ripemd160/src/lib.rs:77-78 | reading n bytes little-endian and storing the value back in n bytes gives the same bytes |
| `LittleEndian.WordsToLe` | ripemd160/src/lib.rs:82 | writing words out gives four bytes per word |
| `LittleEndian.WordsLayout` | ripemd160/src/lib.rs:82 | word i of the output occupies bytes 4i to 4i+3, least significant first |
| `LittleEndian.WordRoundTrip` | ripemd160/src/lib.rs:82 | one word written little-endian and read back is the same word |
| `LittleEndian.WordsRoundTrip` | ripemd160/src/lib.rs:81-82 | decoding each 4-byte group of the output little-endian recovers the words in order |
| `LittleEndian.BytesRoundTrip` | ripemd160/src/lib.rs:81-82 | every byte string of whole 4-byte groups is the output of its decoded words, so the word/byte layout is a bijection |
| `BlockBuffer.Blocks` | ripemd160/src/lib.rs:59 | a stream holds exactly `|s| / 64` complete 64-byte blocks |
| `BlockBuffer.BlockAt` | ripemd160/src/lib.rs:67 | the i-th block delivered is bytes 64i to 64i+63 of the stream |
| `BlockBuffer.Pending` | ripemd160/src/lib.rs:59 | fewer than 64 bytes stay in the buffer |
| `BlockBuffer.Partition` | ripemd160/src/lib.rs:67 | the delivered blocks followed by the pending bytes are exactly the stream: nothing is lost, duplicated or reordered |
| `BlockBuffer.Absorb` | ripemd160/src/lib.rs:67 | the chaining value after the stream's complete blocks have gone through the compression closure; a stream shorter than one block leaves it unchanged (the in-order, one-block-per-step behaviour is stated by `AbsorbPrefixStep` and `FoldAppend`) |
| `BlockBuffer.FoldAppend` | ripemd160/src/lib.rs:66-67 | compressing a run of blocks in order is compressing its first part and then its second part from the chaining value reached |
| `BlockBuffer.BlocksAppend` | ripemd160/src/lib.rs:67 | after a block-aligned prefix, the blocks are the prefix's blocks followed by the rest's blocks, and the pending bytes are those of the rest |
| `BlockBuffer.AbsorbPrefixStep` | ripemd160/src/lib.rs:67 | extending an aligned prefix by its next block applies one compression to that block |
| `BlockBuffer.AbsorbTwo` | ripemd160/src/lib.rs:78 | two blocks are absorbed by two compressions, the first block first |
| `BlockBuffer.ChunkingInvariance` | ripemd160/src/lib.rs:63-68 | taking in s and then t gives the same chaining value and pending bytes as taking in s + t at once |
| `Padding.ZeroFill` | ripemd160/src/lib.rs:78 | the zero fill after the 0x80 marker brings the length to 56 mod 64, with fewer than 64 zero bytes |
| `Padding.Pad` | ripemd160/src/lib.rs:77-78 | the padded message is a whole number of blocks, 9 to 72 bytes longer than the message; a partial block pads to one block below 56 bytes and to two blocks otherwise |
| `Padding.PadShape` | ripemd160/src/lib.rs:77-78 | the padded message starts with the message, then 0x80 and zeros, and its last eight bytes read little-endian give the bit length |
| `Padding.PadPending` | ripemd160/src/lib.rs:74-79 | absorbing the padded whole message equals absorbing the message and then the padded pending bytes, so padding only the buffer is correct |
| `Padding.MarkedBlock` | ripemd160/src/lib.rs:78 | the first padding block holds the pending bytes, then 0x80, then zeros to the end of the block |
| `Padding.PadBlocks` | ripemd160/src/lib.rs:78 | the padding of the buffer is the marked block with the length in its last 8 bytes when fewer than 56 bytes are pending, else the marked block followed by a zero block ending in the length |
| `Ripemd160.BitLength` | ripemd160/src/lib.rs:77 | `len << 3` on a u64 is a value below 2^64 |
| `Ripemd160.Digest` | ripemd160/src/lib.rs:74-84 | the digest of a message is 20 bytes, and its 4-byte groups decode to the chaining words after compressing the padded message from H0 |
| `Ripemd160.WriteU32Into` | ripemd160/src/lib.rs:81-83 | filling the 20-byte output word by word produces the little-endian serialisation of h0..h4 in order |
| `Ripemd160.Ripemd160.constructor` | ripemd160/src/lib.rs:48-55 | a fresh hasher has `h = H0`, `len = 0` and nothing pending |
| `Ripemd160.Ripemd160.Clone` | ripemd160/src/lib.rs:41-46 | a clone is a fresh object with the same `h`, `len` and pending bytes |
| `Ripemd160.Ripemd160.Process` | ripemd160/src/lib.rs:63-68 | `len` grows by exactly the input length; `h` is the in-order compression of the complete blocks of old pending + input; the new pending bytes are that stream's tail, fewer than 64, with `|pending| == len % 64`; nothing else changes, and the invariant is kept |
| `Ripemd160.Ripemd160.Len64Padding` | ripemd160/src/lib.rs:76-78 | the padding step compresses exactly the padded pending bytes into `h` (one block or two) and leaves `len` unchanged |
| `Ripemd160.Ripemd160.FixedResult` | ripemd160/src/lib.rs:74-84 | the result is 20 bytes: the little-endian words of `h` after absorbing the padded pending bytes with bit length `len << 3`, which equals `Digest` of everything taken in; afterwards `h` holds that final chaining value, nothing is pending, and `len` is unchanged |
| `Ripemd160.Ripemd160.Reset` | ripemd160/src/lib.rs:88-94 | returns a fresh object equal to the state before the call, and leaves this hasher equal to a fresh one |
| `Ripemd160.SplitInputSameDigest` | ripemd160/src/lib.rs:63-84 | feeding a message in two `process` calls or in one gives the same digest, the digest of the whole message |
| `Ripemd160.ResetThenHash` | ripemd160/src/lib.rs:88-94 | finalising the value `reset` returns gives the digest of the earlier input, and the reset hasher then hashes a new message as a fresh hasher would |
| `Ripemd160.CloneThenDiverge` | ripemd160/src/lib.rs:41-46 | a clone taken mid-stream and the original finish with the digests of the common prefix followed by their own continuations |

## Left out

- The compression function `process_msg_block`, its round constants, permutations and rotation amounts, and the values of `H0`: the `block` module is not part of this model, so they are constants with no value.
- The "Hello world!" known-answer example (lib.rs:12-18) and all other known-answer vectors: they depend on the concrete compression function.
- The internals of the `block_buffer` crate (`BlockBuffer::input`, `len64_padding`, `reset`): only their observable behaviour is modelled, by the loop in `Process` and by `Len64Padding`. Both use a byte sequence, not a fixed 64-byte array with a position.
- `Ripemd160.Ripemd160.Process`: requires `len + |input| < 2^64`; beyond that the u64 `+=` at lib.rs:65 panics (debug builds) or wraps (release builds), and neither is modelled.
- `Ripemd160.Ripemd160.FixedResult`: Rust's move of the hasher into `fixed_result` is not modelled as such. `FixedResult` does not ensure `Valid()`, so no `Process`, `FixedResult` or `Reset` call verifies on the object afterwards; this stands in for the move.
- `GenericArray`/`typenum` sizing and the `digest` trait plumbing (`Digest`, `Input`, `BlockInput`, `FixedOutput`, `Reset`). Only the sizes 64, 20 and 5 are kept, as constants.
- `impl_opaque_debug!` (debug formatting) and `impl_write!` (the `std::io::Write` adapter): output formatting and I/O.

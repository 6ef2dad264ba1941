/** MD-strengthening padding with a 64-bit little-endian length, the scheme of
    sections 3.1 and 3.2 of RFC 1320 (MD4) that RIPEMD-160 reuses, and
    what the block buffer's `len64_padding` does with it at finalisation. */
module Padding {
  import opened LittleEndian
  import opened Block
  import opened BlockBuffer

  /** Values of an unsigned 64-bit integer are below this bound. */
  const U64_MODULUS: nat := 0x1_0000_0000_0000_0000

  /** n zero bytes. */
  function Zeros(n: nat): (r: seq<u8>)
    ensures |r| == n
    ensures forall i :: 0 <= i < n ==> r[i] == 0
  {
    seq(n, _ => 0)
  }

  /** The number of zero bytes that follow the 0x80 marker after n message
      bytes: the fewest that bring the length to 56 modulo 64. */
  function ZeroFill(n: nat): (k: nat)
    ensures (n + 1 + k) % BLOCK_SIZE == BLOCK_SIZE - 8
    ensures k < BLOCK_SIZE
  {
    (55 - n) % 64
  }

  /** The message m followed by the marker byte 0x80, the zero fill, and
      bitLen as eight little-endian bytes. The padded length is a whole
      number of blocks, between 9 and 72 bytes longer than m; a partial
      block pads to one block if it is shorter than 56 bytes, else to two. */
  function Pad(m: seq<u8>, bitLen: nat): (r: seq<u8>)
    ensures |r| % BLOCK_SIZE == 0
    ensures |m| + 9 <= |r| < |m| + 9 + BLOCK_SIZE
    ensures |m| < BLOCK_SIZE ==> |r| == if |m| < BLOCK_SIZE - 8 then BLOCK_SIZE else 2 * BLOCK_SIZE
  {
    m + [0x80] + Zeros(ZeroFill(|m|)) + ToLe(bitLen, 8)
  }

  /** The padded message starts with the message, then the marker byte and
      zeros, and its last eight bytes read little-endian give the bit length. */
  lemma PadShape(m: seq<u8>, bitLen: nat)
    requires bitLen < U64_MODULUS
    ensures var r := Pad(m, bitLen);
      && r[..|m|] == m && r[|m|] == 0x80
      && (forall i :: |m| < i < |r| - 8 ==> r[i] == 0)
      && FromLe(r[|r| - 8..]) == bitLen
  {
    var r := Pad(m, bitLen);
    assert Pow256(8) == U64_MODULUS;
    FromToLe(bitLen, 8);
    assert r[|r| - 8..] == ToLe(bitLen, 8);
    assert r[..|m|] == m;
  }

  /** The zero fill depends only on the length modulo the block size. */
  lemma ZeroFillMod(k: nat, n: nat)
    requires k % BLOCK_SIZE == 0
    ensures ZeroFill(k + n) == ZeroFill(n)
  {
  }

  /** Padding a whole message is the same as keeping its complete blocks and
      padding only the bytes left pending after them, so finalising from the
      buffered state compresses exactly the padded message. */
  lemma PadPending(h: State, m: seq<u8>, bitLen: nat)
    ensures Absorb(h, Pad(m, bitLen)) == Absorb(Absorb(h, m), Pad(Pending(m), bitLen))
  {
    var k := |m| - |m| % BLOCK_SIZE;
    var x, rest := m[..k], m[k..];
    assert rest == Pending(m);
    assert m == x + rest;
    ZeroFillMod(k, |rest|);
    var tail := [0x80] + Zeros(ZeroFill(|rest|)) + ToLe(bitLen, 8);
    calc {
      Pad(m, bitLen);
      m + [0x80] + Zeros(ZeroFill(|m|)) + ToLe(bitLen, 8);
      (x + rest) + tail;
      x + (rest + tail);
      x + Pad(rest, bitLen);
    }
    AbsorbAligned(h, x, Pad(rest, bitLen));
    AbsorbAligned(h, x, rest);
    AbsorbShort(Absorb(h, x), rest);
  }

  /** The first block of the padding of a partial block: the bytes, the
      marker 0x80, and zeros to the end of the block. */
  function MarkedBlock(m: seq<u8>): (b: MsgBlock)
    requires |m| < BLOCK_SIZE
    ensures b[..|m|] == m && b[|m|] == 0x80
    ensures forall i :: |m| < i < BLOCK_SIZE ==> b[i] == 0
  {
    m + [0x80] + Zeros(BLOCK_SIZE - 1 - |m|)
  }

  /** The padding of a partial block is one block when at least eight bytes
      are left after the marker, the marked block with the length in its
      last eight bytes; otherwise it is two blocks, the marked block and then
      a block of zeros ending in the length. */
  lemma PadBlocks(m: seq<u8>, bitLen: nat)
    requires |m| < BLOCK_SIZE
    ensures |m| < BLOCK_SIZE - 8 ==>
      Pad(m, bitLen) == MarkedBlock(m)[..BLOCK_SIZE - 8] + ToLe(bitLen, 8)
    ensures |m| >= BLOCK_SIZE - 8 ==>
      Pad(m, bitLen) == MarkedBlock(m) + (Zeros(BLOCK_SIZE - 8) + ToLe(bitLen, 8))
  {
  }
}

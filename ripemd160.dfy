/** The RIPEMD-160 streaming hasher: five chaining words, a 64-bit count of
    the bytes taken in, and the bytes of the block not yet complete. */
module Ripemd160 {
  import opened LittleEndian
  import opened Block
  import opened BlockBuffer
  import opened Padding

  /** Size in bytes of the digest (`type OutputSize = U20`). */
  const OUTPUT_SIZE: nat := 20

  /** The message length in bits as the 64-bit shift `len << 3` leaves it:
      eight times the byte count, keeping the low 64 bits. */
  function BitLength(len: nat): (r: nat)
    ensures r < U64_MODULUS
  {
    (len * 8) % U64_MODULUS
  }

  /** The RIPEMD-160 digest of a whole message: the padded message is
      compressed block by block from H0, and the five resulting words are
      written out little-endian, h0 first. */
  function Digest(msg: seq<u8>): (d: seq<u8>)
    ensures |d| == OUTPUT_SIZE
    ensures WordsFromLe(d) == Absorb(H0, Pad(msg, BitLength(|msg|)))
  {
    var h := Absorb(H0, Pad(msg, BitLength(|msg|)));
    WordsRoundTrip(h);
    WordsToLe(h)
  }

  /** The chaining words written out little-endian into a fresh 20-byte
      output, word by word (`LE::write_u32_into`). */
  method WriteU32Into(ws: State) returns (out: seq<u8>)
    ensures |out| == OUTPUT_SIZE
    ensures out == WordsToLe(ws)
  {
    var buf := new u8[OUTPUT_SIZE];
    for i := 0 to DIGEST_BUF_LEN
      invariant buf[..4 * i] == WordsToLe(ws[..i])
    {
      var w := WordToLe(ws[i]);
      ghost var done := buf[..4 * i];
      buf[4 * i], buf[4 * i + 1], buf[4 * i + 2], buf[4 * i + 3] := w[0], w[1], w[2], w[3];
      assert buf[..4 * i + 4] == done + w;
      assert ws[..i + 1][..i] == ws[..i];
      assert WordsToLe(ws[..i + 1]) == WordsToLe(ws[..i]) + w;
    }
    assert ws[..DIGEST_BUF_LEN] == ws;
    out := buf[..];
  }

  class Ripemd160 {
    var h: State
    var len: nat
    var pending: seq<u8>
    /** Every byte taken in since the hasher was created or last reset. */
    ghost var taken: seq<u8>

    /** The state is the one reached by feeding `taken` through the block
        buffer from the initial chaining value, and the counter fits in 64 bits. */
    ghost predicate Valid()
      reads this
    {
      && len == |taken| < U64_MODULUS
      && h == Absorb(H0, taken)
      && pending == Pending(taken)
    }

    /** A fresh hasher (`Default::default`). */
    constructor ()
      ensures Valid()
      ensures h == H0 && len == 0 && pending == [] && taken == []
    {
      h := H0;
      len := 0;
      pending := [];
      taken := [];
    }

    /** A copy with the same state and no sharing (`#[derive(Clone)]`). */
    method Clone() returns (c: Ripemd160)
      ensures fresh(c)
      ensures c.h == h && c.len == len && c.pending == pending && c.taken == taken
    {
      c := new Ripemd160();
      c.h, c.len, c.pending, c.taken := h, len, pending, taken;
    }

    /** Takes in more bytes (`Input::process`): the counter grows by their
        number, every block completed by them is compressed into `h` in
        stream order, and fewer than 64 bytes stay pending. */
    method Process(input: seq<u8>)
      requires Valid()
      requires len + |input| < U64_MODULUS
      modifies this
      ensures Valid()
      ensures taken == old(taken) + input
      ensures len == old(len) + |input|
      ensures h == Absorb(old(h), old(pending) + input)
      ensures pending == Pending(old(pending) + input)
      ensures |pending| == len % BLOCK_SIZE
    {
      len := len + |input|;
      var data := pending + input;
      var i := 0;
      while |data| - i >= BLOCK_SIZE
        invariant 0 <= i <= |data| && i % BLOCK_SIZE == 0
        invariant h == Absorb(old(h), data[..i])
        invariant len == old(len) + |input| && taken == old(taken)
        decreases |data| - i
      {
        AbsorbPrefixStep(old(h), data, i);
        h := Compress(h, data[i..i + BLOCK_SIZE]);
        i := i + BLOCK_SIZE;
      }
      AbsorbPrefixDone(old(h), data, i);
      pending := data[i..];
      ChunkingInvariance(H0, old(taken), input);
      taken := taken + input;
    }

    /** Finishes the hash (`FixedOutput::fixed_result`): the pending bytes are
        padded with the 64-bit bit length, the resulting blocks are
        compressed, and the five chaining words are written out
        little-endian. The digest is that of everything taken in. The
        hasher is consumed: its fields are left as the padding leaves them,
        which no longer satisfies `Valid()`, so no operation can follow. */
    method FixedResult() returns (out: seq<u8>)
      requires Valid()
      modifies this
      ensures |out| == OUTPUT_SIZE
      ensures out == WordsToLe(Absorb(old(h), Pad(old(pending), BitLength(old(len)))))
      ensures out == Digest(old(taken))
      ensures h == Absorb(old(h), Pad(old(pending), BitLength(old(len))))
      ensures pending == [] && len == old(len) && taken == old(taken)
    {
      var l := BitLength(len);
      PadPending(H0, taken, l);
      Len64Padding(l);
      out := WriteU32Into(h);
    }

    /** The block buffer's finalisation (`len64_padding`): the marker byte
        and zeros follow the pending bytes; when fewer than eight bytes of
        the block are left for the length, that block is compressed and a
        zero block takes its place; the length goes in the last eight bytes
        and the block is compressed. Together this compresses exactly the
        padded pending bytes, one block or two. */
    method Len64Padding(l: nat)
      requires |pending| < BLOCK_SIZE && l < U64_MODULUS
      modifies this
      ensures h == Absorb(old(h), Pad(old(pending), l))
      ensures pending == [] && len == old(len) && taken == old(taken)
    {
      PadBlocks(pending, l);
      var block := MarkedBlock(pending);
      if BLOCK_SIZE - (|pending| + 1) < 8 {
        AbsorbTwo(h, block, Zeros(BLOCK_SIZE - 8) + ToLe(l, 8));
        h := Compress(h, block);
        block := Zeros(BLOCK_SIZE);
        assert block[..BLOCK_SIZE - 8] == Zeros(BLOCK_SIZE - 8);
      } else {
        AbsorbOne(h, block[..BLOCK_SIZE - 8] + ToLe(l, 8));
      }
      block := block[..BLOCK_SIZE - 8] + ToLe(l, 8);
      h := Compress(h, block);
      pending := [];
    }

    /** Restarts the hasher (`Reset::reset`): returns a copy of the state
        before the call and puts this hasher back in its initial state. */
    method Reset() returns (temp: Ripemd160)
      requires Valid()
      modifies this
      ensures fresh(temp) && temp.Valid()
      ensures temp.h == old(h) && temp.len == old(len) && temp.pending == old(pending)
      ensures temp.taken == old(taken)
      ensures Valid()
      ensures h == H0 && len == 0 && pending == [] && taken == []
    {
      temp := Clone();
      pending := [];
      len := 0;
      h := H0;
      taken := [];
    }
  }

  /** Feeding a message in two calls or in one gives the same digest: the
      digest of the whole message. */
  method SplitInputSameDigest(a: seq<u8>, b: seq<u8>) returns (split: seq<u8>, whole: seq<u8>)
    requires |a| + |b| < U64_MODULUS
    ensures split == whole
    ensures whole == Digest(a + b)
  {
    var x := new Ripemd160();
    x.Process(a);
    assert x.taken == a;
    x.Process(b);
    assert x.taken == a + b;
    split := x.FixedResult();
    var y := new Ripemd160();
    y.Process(a + b);
    assert y.taken == a + b;
    whole := y.FixedResult();
  }

  /** Finalising the value `Reset` returns gives the digest of everything
      taken in before the reset, and the hasher itself then hashes a new
      message as a fresh hasher would, whatever came before. */
  method ResetThenHash(hasher: Ripemd160, next: seq<u8>) returns (before: seq<u8>, after: seq<u8>)
    requires hasher.Valid() && |next| < U64_MODULUS
    modifies hasher
    ensures before == Digest(old(hasher.taken))
    ensures after == Digest(next)
  {
    var temp := hasher.Reset();
    before := temp.FixedResult();
    hasher.Process(next);
    assert hasher.taken == next;
    after := hasher.FixedResult();
  }

  /** A clone taken part-way through a message continues independently of
      the original: each finishes with the digest of the common prefix
      followed by its own continuation. */
  method CloneThenDiverge(prefix: seq<u8>, c1: seq<u8>, c2: seq<u8>) returns (d1: seq<u8>, d2: seq<u8>)
    requires |prefix| + |c1| < U64_MODULUS && |prefix| + |c2| < U64_MODULUS
    ensures d1 == Digest(prefix + c1)
    ensures d2 == Digest(prefix + c2)
  {
    var original := new Ripemd160();
    original.Process(prefix);
    assert original.taken == prefix;
    var fork := original.Clone();
    original.Process(c1);
    fork.Process(c2);
    assert original.taken == prefix + c1 && fork.taken == prefix + c2;
    d1 := original.FixedResult();
    d2 := fork.FixedResult();
  }
}

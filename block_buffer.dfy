/** The observable contract of the 64-byte block buffer (`BlockBuffer<U64>`)
    that the hasher feeds its input through: the byte stream is cut into
    complete 64-byte blocks, delivered to the compression function in order,
    and whatever does not fill a block stays pending. */
module BlockBuffer {
  import opened LittleEndian
  import opened Block

  /** The complete blocks of a byte stream, in stream order; a trailing
      partial block is not among them. */
  function Blocks(s: seq<u8>): (r: seq<MsgBlock>)
    ensures |r| == |s| / BLOCK_SIZE
    decreases |s|
  {
    if |s| < BLOCK_SIZE then [] else [s[..BLOCK_SIZE]] + Blocks(s[BLOCK_SIZE..])
  }

  /** Block i of a stream is its bytes 64i to 64i+63. */
  lemma {:induction false} BlockAt(s: seq<u8>, i: nat)
    requires i < |s| / BLOCK_SIZE
    ensures Blocks(s)[i] == s[BLOCK_SIZE * i .. BLOCK_SIZE * i + BLOCK_SIZE]
    decreases |s|
  {
    if i > 0 {
      var tail := s[BLOCK_SIZE..];
      BlockAt(tail, i - 1);
      assert Blocks(s)[i] == Blocks(tail)[i - 1];
      assert tail[BLOCK_SIZE * (i - 1) .. BLOCK_SIZE * (i - 1) + BLOCK_SIZE]
          == s[BLOCK_SIZE * i .. BLOCK_SIZE * i + BLOCK_SIZE];
    }
  }

  /** The bytes of a sequence of blocks laid end to end. */
  function Concat(bs: seq<MsgBlock>): (r: seq<u8>)
    ensures |r| == BLOCK_SIZE * |bs|
  {
    if bs == [] then [] else bs[0] + Concat(bs[1..])
  }

  /** The bytes that stay in the buffer once every complete block of the
      stream has been delivered. */
  function Pending(s: seq<u8>): (r: seq<u8>)
    ensures |r| < BLOCK_SIZE
  {
    s[|s| - |s| % BLOCK_SIZE..]
  }

  /** The delivered blocks followed by the pending bytes are exactly the
      stream: nothing is lost, duplicated or reordered. */
  lemma {:induction false} Partition(s: seq<u8>)
    ensures Concat(Blocks(s)) + Pending(s) == s
    decreases |s|
  {
    if |s| < BLOCK_SIZE {
      assert Blocks(s) == [] && Pending(s) == s;
    } else {
      var head, tail := s[..BLOCK_SIZE], s[BLOCK_SIZE..];
      var bs := Blocks(s);
      assert bs == [head] + Blocks(tail);
      assert bs[0] == head && bs[1..] == Blocks(tail);
      assert Pending(s) == Pending(tail);
      Partition(tail);
      calc {
        Concat(bs) + Pending(s);
        head + Concat(Blocks(tail)) + Pending(tail);
        head + (Concat(Blocks(tail)) + Pending(tail));
        head + tail;
        s;
      }
    }
  }

  /** The chaining value after compressing the given blocks one after the
      other, first block first. */
  function Fold(h: State, bs: seq<MsgBlock>): State
    decreases |bs|
  {
    if bs == [] then h else Fold(Compress(h, bs[0]), bs[1..])
  }

  /** Compressing a run of blocks is compressing its first part and then,
      from the chaining value reached, its second part. */
  lemma {:induction false} FoldAppend(h: State, a: seq<MsgBlock>, b: seq<MsgBlock>)
    ensures Fold(h, a + b) == Fold(Fold(h, a), b)
    decreases |a|
  {
    if a != [] {
      assert (a + b)[1..] == a[1..] + b;
      FoldAppend(Compress(h, a[0]), a[1..], b);
    } else {
      assert a + b == b;
    }
  }

  /** The chaining value after every complete block of s has gone through
      the compression function, starting from h. */
  function Absorb(h: State, s: seq<u8>): (r: State)
    ensures |s| < BLOCK_SIZE ==> r == h
  {
    Fold(h, Blocks(s))
  }

  /** A stream that starts with a whole number of blocks is cut at the end of
      them: its blocks are those of each part, and what stays pending is
      what the second part leaves pending. */
  lemma {:induction false} BlocksAppend(x: seq<u8>, y: seq<u8>)
    requires |x| % BLOCK_SIZE == 0
    ensures Blocks(x + y) == Blocks(x) + Blocks(y)
    ensures Pending(x + y) == Pending(y)
    decreases |x|
  {
    if x != [] {
      assert (x + y)[BLOCK_SIZE..] == x[BLOCK_SIZE..] + y;
      assert (x + y)[..BLOCK_SIZE] == x[..BLOCK_SIZE];
      BlocksAppend(x[BLOCK_SIZE..], y);
    } else {
      assert x + y == y;
    }
  }

  /** Absorbing a block-aligned prefix and then the rest is absorbing the
      whole stream. */
  lemma AbsorbAligned(h: State, x: seq<u8>, y: seq<u8>)
    requires |x| % BLOCK_SIZE == 0
    ensures Absorb(h, x + y) == Absorb(Absorb(h, x), y)
    ensures Pending(x + y) == Pending(y)
  {
    BlocksAppend(x, y);
    FoldAppend(h, Blocks(x), Blocks(y));
  }

  /** Absorbing one more full block after a block-aligned prefix compresses
      exactly that block. */
  lemma AbsorbBlock(h: State, x: seq<u8>, b: MsgBlock)
    requires |x| % BLOCK_SIZE == 0
    ensures Absorb(h, x + b) == Compress(Absorb(h, x), b)
  {
    AbsorbAligned(h, x, b);
    assert b[..BLOCK_SIZE] == b && b[BLOCK_SIZE..] == [];
    assert Blocks(b) == [b] + Blocks([]);
    assert Blocks(b) == [b];
    var h' := Absorb(h, x);
    assert Fold(h', [b]) == Fold(Compress(h', b), [b][1..]);
    assert [b][1..] == [];
  }

  /** Extending a block-aligned prefix of a stream by its next block
      compresses that block. */
  lemma AbsorbPrefixStep(h: State, data: seq<u8>, i: nat)
    requires i % BLOCK_SIZE == 0 && i + BLOCK_SIZE <= |data|
    ensures Absorb(h, data[..i + BLOCK_SIZE]) == Compress(Absorb(h, data[..i]), data[i..i + BLOCK_SIZE])
  {
    assert data[..i + BLOCK_SIZE] == data[..i] + data[i..i + BLOCK_SIZE];
    AbsorbBlock(h, data[..i], data[i..i + BLOCK_SIZE]);
  }

  /** Once less than a block of a stream is left after a block-aligned
      prefix, the prefix holds all the complete blocks and the rest is what
      stays pending. */
  lemma AbsorbPrefixDone(h: State, data: seq<u8>, i: nat)
    requires i % BLOCK_SIZE == 0 && i <= |data| < i + BLOCK_SIZE
    ensures Absorb(h, data) == Absorb(h, data[..i])
    ensures Pending(data) == data[i..]
  {
    assert data == data[..i] + data[i..];
    AbsorbAligned(h, data[..i], data[i..]);
    AbsorbShort(Absorb(h, data[..i]), data[i..]);
  }

  /** A single block is absorbed by one compression. */
  lemma AbsorbOne(h: State, b: MsgBlock)
    ensures Absorb(h, b) == Compress(h, b)
  {
    AbsorbBlock(h, [], b);
    assert [] + b == b;
    assert Blocks([]) == [];
  }

  /** Two blocks are absorbed by two compressions, the first block first. */
  lemma AbsorbTwo(h: State, b1: MsgBlock, b2: MsgBlock)
    ensures Absorb(h, b1 + b2) == Compress(Compress(h, b1), b2)
  {
    AbsorbBlock(h, b1, b2);
    AbsorbOne(h, b1);
  }

  /** Fewer than a block of bytes delivers nothing and stays pending as it is. */
  lemma AbsorbShort(h: State, s: seq<u8>)
    requires |s| < BLOCK_SIZE
    ensures Absorb(h, s) == h && Pending(s) == s
  {
  }

  /** Chunking invariance. Starting from chaining value h, a stream s
      leaves Absorb(h, s) and Pending(s); taking in t after that leaves the
      same chaining value and the same pending bytes as taking in s + t at
      once. */
  lemma ChunkingInvariance(h: State, s: seq<u8>, t: seq<u8>)
    ensures Absorb(Absorb(h, s), Pending(s) + t) == Absorb(h, s + t)
    ensures Pending(Pending(s) + t) == Pending(s + t)
  {
    var k := |s| - |s| % BLOCK_SIZE;
    var x, rest := s[..k], s[k..];
    assert rest == Pending(s);
    assert |x| % BLOCK_SIZE == 0;
    assert s == x + rest;
    AbsorbAligned(h, x, rest);
    AbsorbShort(Absorb(h, x), rest);
    assert s + t == x + (rest + t);
    AbsorbAligned(h, x, rest + t);
  }
}

/** Little-endian encoding of unsigned integers into bytes, as used for the
    64-bit bit-length suffix of the padding and for the 20-byte digest
    (the `LE` byte order of the `byteorder` crate). */
module LittleEndian {

  newtype u8 = x: int | 0 <= x < 0x100
  newtype u32 = x: int | 0 <= x < 0x1_0000_0000

  /** 256 to the power n: the number of values an n-byte string can hold. */
  function Pow256(n: nat): (r: nat)
    ensures r >= 1
  {
    if n == 0 then 1 else 256 * Pow256(n - 1)
  }

  /** The value of a byte string read little-endian: the first byte is the
      least significant one. */
  function FromLe(bs: seq<u8>): (r: nat)
    ensures r < Pow256(|bs|)
  {
    if bs == [] then 0 else bs[0] as nat + 256 * FromLe(bs[1..])
  }

  /** The n low-order bytes of x, least significant first. */
  function ToLe(x: nat, n: nat): (r: seq<u8>)
    ensures |r| == n
  {
    if n == 0 then [] else [(x % 256) as u8] + ToLe(x / 256, n - 1)
  }

  /** Storing a value that fits in n bytes and reading it back gives the value. */
  lemma {:induction false} FromToLe(x: nat, n: nat)
    requires x < Pow256(n)
    ensures FromLe(ToLe(x, n)) == x
  {
    if n > 0 {
      assert x / 256 * 256 <= x;
      FromToLe(x / 256, n - 1);
    }
  }

  /** Reading a byte string and storing the value back gives the same bytes. */
  lemma {:induction false} ToFromLe(bs: seq<u8>)
    ensures ToLe(FromLe(bs), |bs|) == bs
  {
    if bs != [] {
      var v := FromLe(bs);
      assert v % 256 == bs[0] as nat && v / 256 == FromLe(bs[1..]);
      ToFromLe(bs[1..]);
    }
  }

  /** The four bytes of a 32-bit word, least significant first. */
  function WordToLe(w: u32): (r: seq<u8>)
    ensures |r| == 4
  {
    ToLe(w as nat, 4)
  }

  /** The 32-bit word stored little-endian in four bytes. */
  function WordFromLe(bs: seq<u8>): (w: u32)
    requires |bs| == 4
  {
    assert Pow256(4) == 0x1_0000_0000;
    FromLe(bs) as u32
  }

  /** A sequence of words written out little-endian one after another, in
      order (`LE::write_u32_into`). */
  function WordsToLe(ws: seq<u32>): (r: seq<u8>)
    ensures |r| == 4 * |ws|
  {
    if ws == [] then [] else WordsToLe(ws[..|ws| - 1]) + WordToLe(ws[|ws| - 1])
  }

  /** Word i of a written-out sequence occupies bytes 4i to 4i+3. */
  lemma {:induction false} WordsLayout(ws: seq<u32>, i: nat)
    requires i < |ws|
    ensures WordsToLe(ws)[4 * i .. 4 * i + 4] == WordToLe(ws[i])
  {
    var init := ws[..|ws| - 1];
    if i < |ws| - 1 {
      WordsLayout(init, i);
      assert WordsToLe(ws)[..4 * |init|] == WordsToLe(init);
    }
  }

  /** The words read back from consecutive 4-byte little-endian groups. */
  function WordsFromLe(bs: seq<u8>): (r: seq<u32>)
    requires |bs| % 4 == 0
    ensures |r| == |bs| / 4
  {
    if bs == [] then [] else WordsFromLe(bs[..|bs| - 4]) + [WordFromLe(bs[|bs| - 4..])]
  }

  /** Decoding each 4-byte group of a word string recovers the words. */
  lemma {:induction false} WordRoundTrip(w: u32)
    ensures WordFromLe(WordToLe(w)) == w
  {
    assert Pow256(4) == 0x1_0000_0000;
    FromToLe(w as nat, 4);
  }

  /** Writing words out and reading them back recovers them. */
  lemma {:induction false} WordsRoundTrip(ws: seq<u32>)
    ensures WordsFromLe(WordsToLe(ws)) == ws
  {
    if ws != [] {
      var init, last := ws[..|ws| - 1], ws[|ws| - 1];
      var bs := WordsToLe(ws);
      assert |bs| == 4 * |init| + 4;
      assert |bs| % 4 == 0;
      assert init + [last] == ws;
      assert bs == WordsToLe(init) + WordToLe(last);
      assert bs[..|bs| - 4] == WordsToLe(init);
      assert bs[|bs| - 4..] == WordToLe(last);
      WordsRoundTrip(init);
      WordRoundTrip(last);
      calc {
        WordsFromLe(bs);
        WordsFromLe(bs[..|bs| - 4]) + [WordFromLe(bs[|bs| - 4..])];
        init + [last];
        ws;
      }
    }
  }

  /** Reading byte groups as words and writing them back recovers the bytes,
      so the encoding is a bijection between words and 4-byte groups. */
  lemma {:induction false} BytesRoundTrip(bs: seq<u8>)
    requires |bs| % 4 == 0
    ensures WordsToLe(WordsFromLe(bs)) == bs
  {
    if bs != [] {
      var init, last := bs[..|bs| - 4], bs[|bs| - 4..];
      assert bs == init + last;
      assert |init| % 4 == 0;
      var ws := WordsFromLe(bs);
      assert ws == WordsFromLe(init) + [WordFromLe(last)];
      assert ws[..|ws| - 1] == WordsFromLe(init);
      BytesRoundTrip(init);
      assert Pow256(4) == 0x1_0000_0000;
      ToFromLe(last);
      assert WordToLe(WordFromLe(last)) == last;
      calc {
        WordsToLe(ws);
        WordsToLe(WordsFromLe(init)) + WordToLe(WordFromLe(last));
        init + last;
        bs;
      }
    }
  }
}

/** Raw machine words as the drivers write them to share files: a
    `size_t` or `uint64_t` copied byte for byte, which on the x86-64
    targets the code is built for is 8 bytes, least significant first. */
module Bytes {
  import opened Results
  import opened Field

  type byte = x: int | 0 <= x < 256

  /** The n low bytes of v, least significant first. */
  function LittleEndian(v: nat, n: nat): (r: seq<byte>)
    ensures |r| == n
  {
    if n == 0 then [] else [v % 256] + LittleEndian(v / 256, n - 1)
  }

  /** The number whose little-endian bytes are b. */
  function FromLittleEndian(b: seq<byte>): (r: nat)
    ensures r < Pow(256, |b|)
  {
    if b == [] then 0 else b[0] + 256 * FromLittleEndian(b[1..])
  }

  lemma {:induction false} LittleEndianRoundTrip(v: nat, n: nat)
    requires v < Pow(256, n)
    ensures FromLittleEndian(LittleEndian(v, n)) == v
    decreases n
  {
    if n > 0 {
      var b := LittleEndian(v, n);
      assert b[1..] == LittleEndian(v / 256, n - 1);
      LittleEndianRoundTrip(v / 256, n - 1);
    }
  }

  lemma WordSize()
    ensures Pow(256, 8) == TWO64
  {
    PowSquare(256, 4);
    PowSquare(65536, 2);
    assert Pow(65536 * 65536, 2) == TWO64 by {
      assert Pow(65536 * 65536, 1) == 65536 * 65536;
    }
  }

  /** A 64-bit word as written by `ofstream::write`. */
  function Word(v: u64): (r: seq<byte>)
    ensures |r| == 8
  {
    LittleEndian(v, 8)
  }

  /** Reading a 64-bit word at `pos`, or None when fewer than 8 bytes are
      left (the stream fails). */
  function ReadWord(b: seq<byte>, pos: nat): (r: Option<u64>)
    ensures r.Some? <==> pos + 8 <= |b|
  {
    WordSize();
    if pos + 8 <= |b| then Some(FromLittleEndian(b[pos..pos + 8])) else None
  }

  /** A word written after any prefix is read back at that offset. */
  lemma ReadWordAt(pre: seq<byte>, v: u64, post: seq<byte>)
    ensures ReadWord(pre + Word(v) + post, |pre|) == Some(v)
  {
    var b := pre + Word(v) + post;
    assert b[|pre|..|pre| + 8] == Word(v);
    WordSize();
    LittleEndianRoundTrip(v, 8);
  }
}

/** The 61-bit chunk codec the drivers wrap around the secret-sharing
    engine. A wide integer (an RSA private exponent) is cut into pieces
    of 61 bits, each small enough for the field modulo 2^61 - 1, and the
    pieces are put back together later.

    Two codecs occur in the drivers. The first takes chunk k as
    (d >> 61k) & (2^61 - 1) and reassembles least significant chunk
    first; it round-trips. The second takes chunk k as
    (d >> 61k) mod (2^61 - 1) and reassembles most significant chunk
    first; it does not. */
module Chunks {
  import opened Results
  import opened Field

  const CHUNK_BITS: nat := 61
  /** 2^61: the weight of one chunk position. */
  const CHUNK_BASE: nat := 0x2000_0000_0000_0000
  /** 2^61 - 1: the drivers' prime, and the mask of the first codec. */
  const PRIME: u64 := 0x1FFF_FFFF_FFFF_FFFF
  const UINT64_MAX: u64 := 0xFFFF_FFFF_FFFF_FFFF

  // ---------------------------------------------------------------------
  // Powers of two.
  // ---------------------------------------------------------------------

  lemma TwoToThe61()
    ensures Pow(2, 61) == CHUNK_BASE
  {
    PowSquare(2, 30);
    PowSquare(4, 15);
    PowSquare(16, 7);
    PowSquare(256, 3);
    assert Pow(65536, 3) == 65536 * 65536 * 65536 by {
      assert Pow(65536, 1) == 65536;
      assert Pow(65536, 2) == 65536 * 65536;
    }
  }

  lemma {:induction false} PowMul(b: int, m: nat, k: nat)
    ensures Pow(b, m * k) == Pow(Pow(b, m), k)
    decreases k
  {
    if k > 0 {
      PowMul(b, m, k - 1);
      assert m * k == m + m * (k - 1);
      PowAdd(b, m, m * (k - 1));
    }
  }

  lemma {:induction false} PowMono(b: int, e1: nat, e2: nat)
    requires b >= 1 && e1 <= e2
    ensures 1 <= Pow(b, e1) <= Pow(b, e2)
    decreases e2
  {
    if e1 < e2 {
      PowMono(b, e1, e2 - 1);
      MulLe(1, b, Pow(b, e2 - 1), Pow(b, e2 - 1));
    } else if e2 > 0 {
      PowMono(b, e1 - 1, e2 - 1);
      MulLe(1, b, 1, Pow(b, e2 - 1));
    }
  }

  lemma TwoToThe64()
    ensures Pow(2, 64) == TWO64
  {
    TwoToThe61();
    PowAdd(2, 61, 3);
  }

  // ---------------------------------------------------------------------
  // Bit length and chunk count.
  // ---------------------------------------------------------------------

  /** `BN_num_bits`: the number of binary digits of d, 0 for 0. */
  function Bits(d: nat): (r: nat)
    ensures d < Pow(2, r)
    ensures d > 0 ==> r > 0 && Pow(2, r - 1) <= d
  {
    if d == 0 then 0 else 1 + Bits(d / 2)
  }

  lemma PowLe(b: int, e1: nat, e2: nat)
    requires b >= 1
    ensures e1 <= e2 ==> Pow(b, e1) <= Pow(b, e2)
  {
    if e1 <= e2 {
      PowMono(b, e1, e2);
    }
  }

  lemma BitsAtLeast(d: nat, r: nat)
    requires r > 0 && Pow(2, r - 1) <= d
    ensures Bits(d) >= r
  {
    PowLe(2, Bits(d), r - 1);
  }

  lemma BitsAtMost(d: nat, r: nat)
    requires d < Pow(2, r)
    ensures Bits(d) <= r
  {
    if Bits(d) > 0 {
      PowLe(2, r, Bits(d) - 1);
    }
  }

  /** The bit length is the only r with 2^(r-1) <= d < 2^r. */
  lemma BitsUnique(d: nat, r: nat)
    requires r > 0 && Pow(2, r - 1) <= d < Pow(2, r)
    ensures Bits(d) == r
  {
    BitsAtLeast(d, r);
    BitsAtMost(d, r);
  }

  /** A value fits in a 64-bit word exactly when it has at most 64 bits. */
  lemma BitsWithin64(d: nat)
    ensures Bits(d) <= 64 <==> d < TWO64
  {
    TwoToThe64();
    if d < TWO64 {
      BitsAtMost(d, 64);
    } else {
      BitsAtLeast(d, 65);
    }
  }

  /** (bits + 60) / 61: the fewest 61-bit chunks that hold `bits` bits. */
  function NumChunks(bits: nat): (r: nat)
    ensures bits <= CHUNK_BITS * r
    ensures r > 0 ==> CHUNK_BITS * (r - 1) < bits
  {
    (bits + CHUNK_BITS - 1) / CHUNK_BITS
  }

  /** 2^(61k): the weight of chunk k, `1 << 61k`. */
  function Shift(k: nat): (r: nat)
    ensures r >= 1
  {
    if k == 0 then 1 else CHUNK_BASE * Shift(k - 1)
  }

  lemma {:induction false} ShiftIsPowerOfTwo(k: nat)
    ensures Shift(k) == Pow(2, CHUNK_BITS * k)
    decreases k
  {
    if k > 0 {
      ShiftIsPowerOfTwo(k - 1);
      TwoToThe61();
      assert CHUNK_BITS * k == 61 + CHUNK_BITS * (k - 1);
      PowAdd(2, 61, CHUNK_BITS * (k - 1));
    }
  }

  // ---------------------------------------------------------------------
  // The masking codec, least significant chunk first.
  // ---------------------------------------------------------------------

  /** Chunk k: `(d >> 61k) & (2^61 - 1)`. */
  function ChunkAt(d: nat, k: nat): (r: u64)
    ensures r < CHUNK_BASE
  {
    (d / Shift(k)) % CHUNK_BASE
  }

  /** The chunks of d, ceil(bits(d) / 61) of them. */
  function SplitChunks(d: nat): (r: seq<u64>)
    ensures |r| == NumChunks(Bits(d))
    ensures forall k :: 0 <= k < |r| ==> r[k] == ChunkAt(d, k)
  {
    seq(NumChunks(Bits(d)), k requires 0 <= k => ChunkAt(d, k))
  }

  /** The sum of cs[k] * 2^(61k): chunk 0 is the least significant. */
  function FromChunks(cs: seq<int>): int
  {
    if cs == [] then 0 else FromChunks(cs[..|cs| - 1]) + cs[|cs| - 1] * Shift(|cs| - 1)
  }

  /** Chunk value v placed at chunk position k: `v << 61k`. */
  function Weighted(v: u64, k: nat): nat
  {
    if k == 0 then v else CHUNK_BASE * Weighted(v, k - 1)
  }

  lemma {:induction false} WeightedIsShifted(v: u64, k: nat)
    ensures Weighted(v, k) == v * Shift(k)
    decreases k
  {
    if k > 0 {
      WeightedIsShifted(v, k - 1);
      assert CHUNK_BASE * (v * Shift(k - 1)) == v * (CHUNK_BASE * Shift(k - 1));
    }
  }

  /** One more chunk adds its value at the next weight. */
  lemma FromChunksSnoc(cs: seq<u64>, v: u64)
    ensures FromChunks(cs + [v]) == FromChunks(cs) + Weighted(v, |cs|)
  {
    var w := cs + [v];
    assert w[..|w| - 1] == cs;
    WeightedIsShifted(v, |cs|);
  }

  /** The chunk results of a reconstruction loop, in chunk order: all the
      values when every chunk succeeded, otherwise the first error, which
      ends the loop. */
  function Collect<E>(vs: seq<Result<u64, E>>): (r: Result<seq<u64>, E>)
    ensures r.Ok? ==> |r.value| == |vs| && forall k :: 0 <= k < |vs| ==> vs[k] == Ok(r.value[k])
  {
    if vs == [] then Ok([])
    else match Collect(vs[..|vs| - 1])
      case Err(e) => Err(e)
      case Ok(cs) =>
        match vs[|vs| - 1]
        case Err(e) => Err(e)
        case Ok(v) => Ok(cs + [v])
  }

  /** One more chunk result: its value is appended at its weight, or its
      error ends the whole loop. */
  lemma CollectStep<E>(vs: seq<Result<u64, E>>, k: nat, cs: seq<u64>)
    requires k < |vs| && Collect(vs[..k]) == Ok(cs)
    ensures vs[k].Ok? ==> Collect(vs[..k + 1]) == Ok(cs + [vs[k].value])
    ensures vs[k].Ok? ==> FromChunks(cs + [vs[k].value]) == FromChunks(cs) + Weighted(vs[k].value, k)
    ensures vs[k].Err? ==> Collect(vs) == Err(vs[k].error)
  {
    var w := vs[..k + 1];
    assert w[..|w| - 1] == vs[..k];
    assert w[|w| - 1] == vs[k];
    if vs[k].Ok? {
      FromChunksSnoc(cs, vs[k].value);
    } else {
      CollectErrorPersists(vs, k + 1);
    }
  }

  /** Once a prefix has failed, the whole loop fails with that error. */
  lemma {:induction false} CollectErrorPersists<E>(vs: seq<Result<u64, E>>, k: nat)
    requires k <= |vs| && Collect(vs[..k]).Err?
    ensures Collect(vs) == Collect(vs[..k])
    decreases |vs|
  {
    if k < |vs| {
      var prefix := vs[..|vs| - 1];
      assert prefix[..k] == vs[..k];
      CollectErrorPersists(prefix, k);
    } else {
      assert vs[..k] == vs;
    }
  }

  /** When every chunk result is a value, those values are collected. */
  lemma {:induction false} CollectValues<E>(vs: seq<Result<u64, E>>, cs: seq<u64>)
    requires |vs| == |cs| && forall k :: 0 <= k < |vs| ==> vs[k] == Ok(cs[k])
    ensures Collect(vs) == Ok(cs)
    decreases |vs|
  {
    if vs != [] {
      var n := |vs|;
      CollectValues(vs[..n - 1], cs[..n - 1]);
      assert cs[..n - 1] + [cs[n - 1]] == cs;
    }
  }

  /** The first failing chunk decides the error. */
  lemma {:induction false} CollectFirstError<E>(vs: seq<Result<u64, E>>, k: nat)
    requires k < |vs| && vs[k].Err? && forall j :: 0 <= j < k ==> vs[j].Ok?
    ensures Collect(vs) == Err(vs[k].error)
    decreases |vs|
  {
    var n := |vs|;
    if k < n - 1 {
      CollectFirstError(vs[..n - 1], k);
    } else {
      var prefix := vs[..n - 1];
      var cs := seq(k, j requires 0 <= j < k => prefix[j].value);
      CollectValues(prefix, cs);
    }
  }

  /** x mod ab splits into x mod a and the next digit in base b. */
  lemma ModSplit(x: int, a: int, b: int)
    requires x >= 0 && a > 0 && b > 0
    ensures x % (a * b) == x % a + a * ((x / a) % b)
    ensures x / (a * b) == (x / a) / b
  {
    var q, r := x / a, x % a;
    var q2, r2 := q / b, q % b;
    assert x == a * q + r;
    assert q == b * q2 + r2;
    assert x == (a * b) * q2 + (a * r2 + r);
    MulLe(a, a, r2, b - 1);
    assert a * r2 + r < a * b;
    DivModUnique(x, a * b, q2, a * r2 + r);
  }

  /** One more base-2^61 digit: d mod 2^61 a is d mod a plus the next
      digit at weight a. */
  lemma NextDigit(d: nat, a: nat)
    requires a > 0
    ensures d % (CHUNK_BASE * a) == d % a + ((d / a) % CHUNK_BASE) * a
  {
    ModSplit(d, a, CHUNK_BASE);
    assert a * CHUNK_BASE == CHUNK_BASE * a;
  }

  /** The first K chunks of d are the base-2^61 digits of d mod 2^(61K). */
  lemma {:induction false} ChunkDigits(d: nat, K: nat)
    ensures FromChunks(seq(K, k requires 0 <= k => ChunkAt(d, k))) == d % Shift(K)
    decreases K
  {
    var cs := seq(K, k requires 0 <= k => ChunkAt(d, k));
    if K == 0 {
      DivModUnique(d, 1, d, 0);
    } else {
      var a := Shift(K - 1);
      var c := (d / a) % CHUNK_BASE;
      assert cs[..K - 1] == seq(K - 1, k requires 0 <= k => ChunkAt(d, k));
      ChunkDigits(d, K - 1);
      assert FromChunks(cs) == d % a + c * a;
      NextDigit(d, a);
    }
  }

  /** Reassembling the chunks of d gives d back, for every d. */
  lemma ChunksRoundTrip(d: nat)
    ensures FromChunks(SplitChunks(d)) == d
  {
    var K := NumChunks(Bits(d));
    assert SplitChunks(d) == seq(K, k requires 0 <= k => ChunkAt(d, k));
    ChunkDigits(d, K);
    ShiftIsPowerOfTwo(K);
    PowMono(2, Bits(d), CHUNK_BITS * K);
    DivModUnique(d, Shift(K), 0, d);
  }

  // ---------------------------------------------------------------------
  // The reducing codec, most significant chunk first.
  // ---------------------------------------------------------------------

  /** Chunk k as the reducing drivers compute it: `(d >> 61k) mod (2^61 - 1)`. */
  function ModChunkAt(d: nat, k: nat): (r: u64)
    ensures r < PRIME
  {
    (d / Shift(k)) % PRIME
  }

  function ModSplitChunks(d: nat): (r: seq<u64>)
    ensures |r| == NumChunks(Bits(d))
    ensures forall k :: 0 <= k < |r| ==> r[k] == ModChunkAt(d, k)
  {
    seq(NumChunks(Bits(d)), k requires 0 <= k => ModChunkAt(d, k))
  }

  /** The fold d := d * 2^61 + cs[k] for k = 0, 1, ...: chunk 0 ends up
      the most significant. */
  function FromChunksMsb(cs: seq<int>): int
  {
    if cs == [] then 0 else FromChunksMsb(cs[..|cs| - 1]) * CHUNK_BASE + cs[|cs| - 1]
  }

  /** One more round of the fold: the value so far moves up 61 bits and
      the new chunk fills the low bits. */
  lemma FromChunksMsbSnoc(cs: seq<int>, v: int)
    ensures FromChunksMsb(cs + [v]) == FromChunksMsb(cs) * CHUNK_BASE + v
  {
    var w := cs + [v];
    assert w[..|w| - 1] == cs;
  }

  function Reverse(s: seq<int>): (r: seq<int>)
    ensures |r| == |s| && forall k :: 0 <= k < |s| ==> r[k] == s[|s| - 1 - k]
  {
    if s == [] then [] else [s[|s| - 1]] + Reverse(s[..|s| - 1])
  }

  lemma {:induction false} FromChunksCons(c: int, s: seq<int>)
    ensures FromChunks([c] + s) == c + CHUNK_BASE * FromChunks(s)
    decreases |s|
  {
    if s != [] {
      var n := |s|;
      var s', last, w := s[..n - 1], s[n - 1], Shift(n - 1);
      assert ([c] + s)[..n] == [c] + s';
      FromChunksCons(c, s');
      assert Shift(n) == CHUNK_BASE * w;
      assert FromChunks([c] + s) == FromChunks([c] + s') + last * (CHUNK_BASE * w);
      assert FromChunks(s) == FromChunks(s') + last * w;
      assert last * (CHUNK_BASE * w) == CHUNK_BASE * (last * w);
    } else {
      assert [c][..0] == [];
    }
  }

  /** The most-significant-first fold is the least-significant-first sum
      of the chunks in reverse order. */
  lemma {:induction false} MsbIsReversedLsb(cs: seq<int>)
    ensures FromChunksMsb(cs) == FromChunks(Reverse(cs))
    decreases |cs|
  {
    if cs != [] {
      var cs' := cs[..|cs| - 1];
      MsbIsReversedLsb(cs');
      FromChunksCons(cs[|cs| - 1], Reverse(cs'));
    }
  }

  lemma BitsOfTwoChunkExample()
    ensures Bits(CHUNK_BASE + 1) == 62 && NumChunks(62) == 2
  {
    TwoToThe61();
    assert Pow(2, 62) == 2 * CHUNK_BASE;
    BitsUnique(CHUNK_BASE + 1, 62);
  }

  lemma BitsOfAllOnes()
    ensures Bits(CHUNK_BASE - 1) == 61 && NumChunks(61) == 1
  {
    TwoToThe61();
    assert Pow(2, 60) * 2 == CHUNK_BASE;
    BitsUnique(CHUNK_BASE - 1, 61);
  }

  /** 2^61 + 1: the reducing codec yields chunks [2, 1] and reassembles
      them to 2^62 + 1, while the masking codec yields [1, 1] and gets
      2^61 + 1 back. */
  lemma ReducingCodecLosesTwoChunkKey()
    ensures ModSplitChunks(CHUNK_BASE + 1) == [2, 1]
    ensures FromChunksMsb([2, 1]) == 2 * CHUNK_BASE + 1
    ensures SplitChunks(CHUNK_BASE + 1) == [1, 1]
    ensures FromChunks([1, 1]) == CHUNK_BASE + 1
  {
    var d := CHUNK_BASE + 1;
    BitsOfTwoChunkExample();
    assert Shift(1) == CHUNK_BASE;
    DivModUnique(d, PRIME, 1, 2);
    DivModUnique(d, CHUNK_BASE, 1, 1);
    var m := ModSplitChunks(d);
    assert m[0] == 2 && m[1] == 1;
    var c := SplitChunks(d);
    assert c[0] == 1 && c[1] == 1;
    assert [2, 1][..1] == [2];
    assert [1, 1][..1] == [1];
  }

  /** 2^61 - 1: the reducing codec yields the single chunk 0, and the
      masking codec yields the chunk 2^61 - 1, which is the prime itself. */
  lemma ReducingCodecLosesAllOnesKey()
    ensures ModSplitChunks(CHUNK_BASE - 1) == [0]
    ensures SplitChunks(CHUNK_BASE - 1) == [PRIME]
  {
    BitsOfAllOnes();
    assert Shift(0) == 1;
  }
}

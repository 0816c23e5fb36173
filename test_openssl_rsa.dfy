/** The RSA test driver: the private exponent is cut into 61-bit chunks,
    every chunk is shared 3-of-5 modulo 2^61 - 1, parties 1, 2 and 3
    recover every chunk, and the chunks are reassembled. */
module OpensslRsaTest {
  import opened Results
  import opened Field
  import opened Fermat
  import opened Lagrange
  import opened Shamir
  import opened Chunks
  import opened Dealing

  const THRESHOLD: u64 := 3
  const NUM_PARTIES: u64 := 5

  /** `split_bignum_to_chunks`: ceil(bits / 61) chunks, chunk i being the
      exponent shifted right by 61i and masked to 61 bits. */
  method SplitBignumToChunks(d: nat) returns (chunks: seq<u64>)
    ensures chunks == SplitChunks(d)
  {
    var numBits := Bits(d);
    var numChunks := (numBits + CHUNK_BITS - 1) / CHUNK_BITS;
    chunks := [];
    for i := 0 to numChunks
      invariant |chunks| == i
      invariant forall k :: 0 <= k < i ==> chunks[k] == ChunkAt(d, k)
    {
      var shifted := d / Shift(i);
      var chunk := shifted % CHUNK_BASE;
      chunks := chunks + [chunk];
    }
  }

  /** `reconstruct_bignum_from_chunks`: adds chunk i shifted left by 61i. */
  method ReconstructBignumFromChunks(chunks: seq<u64>) returns (d: nat)
    ensures d == FromChunks(chunks)
  {
    d := 0;
    for i := 0 to |chunks|
      invariant d == FromChunks(chunks[..i])
    {
      assert chunks[..i + 1][..i] == chunks[..i];
      d := d + chunks[i] * Shift(i);
    }
    assert chunks[..|chunks|] == chunks;
  }

  /** The test's sharing loop: every chunk goes unreduced to a fresh 3-of-5
      `split`, which throws on the first chunk that is not below the
      prime. */
  method ShareChunks(chunks: seq<u64>) returns (r: Result<seq<seq<Share>>, SharingError>, ghost polys: seq<seq<u64>>)
    ensures r.Err? <==> exists k :: 0 <= k < |chunks| && chunks[k] >= PRIME
    ensures r.Err? ==> r.error == SecretNotBelowPrime
    ensures r.Ok? ==> |r.value| == |chunks| == |polys|
    ensures r.Ok? ==> forall k :: 0 <= k < |chunks| ==>
      IsSharingPolynomial(polys[k], chunks[k], THRESHOLD, PRIME) && AreSharesOf(r.value[k], polys[k], NUM_PARTIES, PRIME)
  {
    var all: seq<seq<Share>> := [];
    polys := [];
    for k := 0 to |chunks|
      invariant |all| == k == |polys|
      invariant forall j :: 0 <= j < k ==> chunks[j] < PRIME
      invariant forall j :: 0 <= j < k ==>
        IsSharingPolynomial(polys[j], chunks[j], THRESHOLD, PRIME) && AreSharesOf(all[j], polys[j], NUM_PARTIES, PRIME)
    {
      var sss := new ShamirSecretSharing(THRESHOLD, NUM_PARTIES, PRIME);
      var shares, poly := sss.Split(chunks[k]);
      if shares.Err? {
        return Err(shares.error), polys;
      }
      all := all + [shares.value];
      polys := polys + [poly];
    }
    return Ok(all), polys;
  }

  /** What the recovery loop yields after K chunks: each chunk is
      reconstructed from the collaborating parties' shares of it, and the
      first failing `reconstruct` ends the run. */
  function RecoveredChunks(all: seq<seq<Share>>, parties: seq<nat>, K: nat): Result<seq<u64>, SharingError>
    requires K <= |all|
    requires forall k, j :: 0 <= k < |all| && 0 <= j < |parties| ==> parties[j] < |all[k]|
  {
    if K == 0 then Ok([])
    else match RecoveredChunks(all, parties, K - 1)
      case Err(e) => Err(e)
      case Ok(vs) =>
        match Reconstructed(THRESHOLD, PRIME, Pick(all[K - 1], parties))
        case Err(e) => Err(e)
        case Ok(v) => Ok(vs + [v])
  }

  /** A failed chunk ends the recovery with that chunk's error. */
  lemma {:induction false} RecoveryFailurePersists(all: seq<seq<Share>>, parties: seq<nat>, k: nat, K: nat)
    requires k <= K <= |all|
    requires forall k, j :: 0 <= k < |all| && 0 <= j < |parties| ==> parties[j] < |all[k]|
    requires RecoveredChunks(all, parties, k).Err?
    ensures RecoveredChunks(all, parties, K) == RecoveredChunks(all, parties, k)
    decreases K - k
  {
    if k < K {
      RecoveryFailurePersists(all, parties, k + 1, K);
    }
  }

  /** The collaborating parties' shares of one chunk, in party order. */
  method GatherShares(chunkShares: seq<Share>, parties: seq<nat>) returns (gathered: seq<Share>)
    requires forall j :: 0 <= j < |parties| ==> parties[j] < |chunkShares|
    ensures gathered == Pick(chunkShares, parties)
  {
    gathered := [];
    for j := 0 to |parties|
      invariant gathered == Pick(chunkShares, parties[..j])
    {
      assert parties[..j + 1][..j] == parties[..j];
      gathered := gathered + [chunkShares[parties[j]]];
    }
    assert parties[..|parties|] == parties;
  }

  /** The test's recovery loop over the chunks, with parties given by
      their indices. */
  method RecoverChunks(all: seq<seq<Share>>, parties: seq<nat>) returns (r: Result<seq<u64>, SharingError>)
    requires forall k, j :: 0 <= k < |all| && 0 <= j < |parties| ==> parties[j] < |all[k]|
    ensures r == RecoveredChunks(all, parties, |all|)
  {
    var recovered: seq<u64> := [];
    for k := 0 to |all|
      invariant RecoveredChunks(all, parties, k) == Ok(recovered)
    {
      var chunkShares := GatherShares(all[k], parties);
      var sss := new ShamirSecretSharing(THRESHOLD, NUM_PARTIES, PRIME);
      var v := sss.Reconstruct(chunkShares);
      if v.Err? {
        RecoveryFailurePersists(all, parties, k + 1, |all|);
        return Err(v.error);
      }
      recovered := recovered + [v.value];
    }
    return Ok(recovered);
  }

  /** The recovery never fails and returns exactly the dealt chunks when
      any three or more distinct parties collaborate: the test's per-chunk
      comparison and its final comparison of exponents both pass. */
  lemma {:induction false} RecoveryMatches(chunks: seq<u64>, all: seq<seq<Share>>, polys: seq<seq<u64>>,
                                           parties: seq<nat>, K: nat)
    requires Prime(PRIME) && K <= |chunks| == |all| == |polys|
    requires forall k :: 0 <= k < |chunks| ==>
      IsSharingPolynomial(polys[k], chunks[k], THRESHOLD, PRIME) && AreSharesOf(all[k], polys[k], NUM_PARTIES, PRIME)
    requires forall k :: 0 <= k < |chunks| ==> chunks[k] < PRIME && |all[k]| == NUM_PARTIES
    requires |parties| >= THRESHOLD && DistinctPicks(parties, NUM_PARTIES)
    ensures RecoveredChunks(all, parties, K) == Ok(chunks[..K])
    decreases K
  {
    if K > 0 {
      RecoveryMatches(chunks, all, polys, parties, K - 1);
      ReconstructRecoversSecret(THRESHOLD, NUM_PARTIES, PRIME, polys[K - 1], chunks[K - 1], all[K - 1], parties);
      assert chunks[..K] == chunks[..K - 1] + [chunks[K - 1]];
    }
  }

  /** The whole run: for an exponent none of whose chunks is 2^61 - 1,
      sharing succeeds, parties 1, 2, 3 recover every chunk, and the
      reassembled exponent is the original. */
  lemma ExponentRecovered(d: nat, all: seq<seq<Share>>, polys: seq<seq<u64>>)
    requires Prime(PRIME)
    requires |all| == |polys| == |SplitChunks(d)|
    requires forall k :: 0 <= k < |all| ==>
      IsSharingPolynomial(polys[k], SplitChunks(d)[k], THRESHOLD, PRIME) && AreSharesOf(all[k], polys[k], NUM_PARTIES, PRIME)
    requires forall k :: 0 <= k < |all| ==> SplitChunks(d)[k] != PRIME && |all[k]| == NUM_PARTIES
    ensures RecoveredChunks(all, [0, 1, 2], |all|) == Ok(SplitChunks(d))
    ensures FromChunks(SplitChunks(d)) == d
  {
    var chunks := SplitChunks(d);
    RecoveryMatches(chunks, all, polys, [0, 1, 2], |all|);
    assert chunks[..|all|] == chunks;
    ChunksRoundTrip(d);
  }
}

/** What the two drivers that reduce chunks modulo 2^61 - 1 have in
    common: the demo server of multiparty_tls_simple.cpp and the handshake
    test both cut d with `BN_mod` by the mask 2^61 - 1, hand share p of
    every chunk to party p + 1, and rebuild d with the fold
    d := d * 2^61 + chunk, chunk 0 first. */
module ReducingDrivers {
  import opened Results
  import opened Field
  import opened Fermat
  import opened Lagrange
  import opened Shamir
  import opened Chunks
  import opened Dealing

  const THRESHOLD: u64 := 3
  const NUM_PARTIES: u64 := 5

  /** A party: its number, its name and its shares, one per chunk. */
  datatype Party = Party(id: nat, name: string, shares: seq<Share>)

  /** Chunk k of d: shifted right by 61k, then `BN_mod` by the mask
      2^61 - 1, which is the field prime. */
  method ExtractChunk(d: nat, k: nat) returns (chunk: nat)
    ensures chunk < PRIME
    ensures chunk == ModChunkAt(d, k)
  {
    var shifted := d / Shift(k);
    var mask := CHUNK_BASE - 1;
    chunk := shifted % mask;
  }

  /** The hand-out loop: party p (p < 5) gets its share of every chunk
      appended in chunk order; other entries of the vector are left alone. */
  method DistributeShares(parties: array<Party>, all: seq<seq<Share>>)
    requires parties.Length >= NUM_PARTIES as int
    requires forall k :: 0 <= k < |all| ==> NUM_PARTIES as int <= |all[k]|
    modifies parties
    ensures forall p :: 0 <= p < NUM_PARTIES as int ==>
      parties[p] == old(parties[p]).(shares := old(parties[p]).shares + Transposed(all, NUM_PARTIES as nat)[p])
    ensures forall p :: NUM_PARTIES as int <= p < parties.Length ==> parties[p] == old(parties[p])
  {
    ghost var rows := Transposed(all, NUM_PARTIES as nat);
    for p := 0 to NUM_PARTIES as int
      invariant forall q :: 0 <= q < p ==> parties[q] == old(parties[q]).(shares := old(parties[q]).shares + rows[q])
      invariant forall q :: p <= q < parties.Length ==> parties[q] == old(parties[q])
    {
      ghost var before := parties[..];
      for k := 0 to |all|
        invariant parties[p] == before[p].(shares := before[p].shares + rows[p][..k])
        invariant forall q :: 0 <= q < parties.Length && q != p ==> parties[q] == before[q]
      {
        assert rows[p][..k + 1] == rows[p][..k] + [all[k][p]];
        parties[p] := parties[p].(shares := parties[p].shares + [all[k][p]]);
      }
      assert rows[p][..|all|] == rows[p];
    }
  }

  // ---------------------------------------------------------------------
  // Reassembly, most significant chunk first.
  // ---------------------------------------------------------------------

  /** Every party holds at least K shares. */
  predicate HoldChunks(parties: seq<Party>, K: nat)
  {
    forall j :: 0 <= j < |parties| ==> K <= |parties[j].shares|
  }

  /** The shares of chunk k, in the order the parties are listed. */
  function ChunkColumn(parties: seq<Party>, k: nat): (r: seq<Share>)
    requires forall j :: 0 <= j < |parties| ==> k < |parties[j].shares|
    ensures |r| == |parties| && forall j :: 0 <= j < |parties| ==> r[j] == parties[j].shares[k]
  {
    seq(|parties|, j requires 0 <= j < |parties| => parties[j].shares[k])
  }

  /** Chunks 0, ..., K-1, each reconstructed 3-of-5 from its column. */
  function ChunkResults(parties: seq<Party>, K: nat): (r: seq<Result<u64, SharingError>>)
    requires HoldChunks(parties, K)
    ensures |r| == K && forall k :: 0 <= k < K ==> r[k] == Reconstructed(THRESHOLD, PRIME, ChunkColumn(parties, k))
  {
    seq(K, k requires 0 <= k < K => Reconstructed(THRESHOLD, PRIME, ChunkColumn(parties, k)))
  }

  /** What the reassembly loop yields: the first chunk `reconstruct`
      refuses ends it (the exception escapes), otherwise the chunks folded
      most significant first. */
  function MsbReassembled(parties: seq<Party>, K: nat): Result<int, SharingError>
    requires HoldChunks(parties, K)
  {
    match Collect(ChunkResults(parties, K))
    case Err(e) => Err(e)
    case Ok(chunks) => Ok(FromChunksMsb(chunks))
  }

  method ReconstructChunk(sss: ShamirSecretSharing, parties: seq<Party>, k: nat) returns (v: Result<u64, SharingError>)
    requires sss.Valid() && sss.threshold == THRESHOLD && sss.prime == PRIME
    requires forall j :: 0 <= j < |parties| ==> k < |parties[j].shares|
    ensures v == Reconstructed(THRESHOLD, PRIME, ChunkColumn(parties, k))
  {
    var chunkShares: seq<Share> := [];
    for j := 0 to |parties|
      invariant chunkShares == ChunkColumn(parties[..j], k)
    {
      assert parties[..j + 1][..j] == parties[..j];
      chunkShares := chunkShares + [parties[j].shares[k]];
    }
    assert parties[..|parties|] == parties;
    v := sss.Reconstruct(chunkShares);
  }

  /** The reassembly loop of `collaborativeDecrypt`: a fresh 3-of-5
      instance, every chunk reconstructed from the participants' shares,
      and d := d * 2^61 + chunk. */
  method ReassembleMsb(parties: seq<Party>, numChunks: nat) returns (r: Result<int, SharingError>)
    requires HoldChunks(parties, numChunks)
    ensures r == MsbReassembled(parties, numChunks)
  {
    var sss := new ShamirSecretSharing(THRESHOLD, NUM_PARTIES, PRIME);
    ghost var results := ChunkResults(parties, numChunks);
    ghost var chunks: seq<u64> := [];
    var d := 0;
    for k := 0 to numChunks
      invariant Collect(results[..k]) == Ok(chunks) && d == FromChunksMsb(chunks)
    {
      var chunkValue := ReconstructChunk(sss, parties, k);
      CollectStep(results, k, chunks);
      if chunkValue.Err? {
        return Err(chunkValue.error);
      }
      FromChunksMsbSnoc(chunks, chunkValue.value);
      d := d * CHUNK_BASE + chunkValue.value;
      chunks := chunks + [chunkValue.value];
    }
    assert results[..numChunks] == results;
    return Ok(d);
  }

  // ---------------------------------------------------------------------
  // What the participants get back.
  // ---------------------------------------------------------------------

  /** Any three or more distinct parties holding dealt rows get every
      chunk back, so the reassembly is the most-significant-first fold of
      the dealt chunks. */
  lemma PartiesRecoverChunks(rows: seq<seq<Share>>, chunks: seq<u64>, polys: seq<seq<u64>>,
                             parties: seq<Party>, picks: seq<nat>)
    requires Prime(PRIME)
    requires Dealt(rows, chunks, polys, THRESHOLD as nat, NUM_PARTIES as nat, PRIME)
    requires |parties| == NUM_PARTIES as int && forall i :: 0 <= i < |parties| ==> parties[i].shares == rows[i]
    requires forall k :: 0 <= k < |chunks| ==> chunks[k] < PRIME
    requires |picks| >= THRESHOLD as int && DistinctPicks(picks, NUM_PARTIES as nat)
    ensures HoldChunks(Pick(parties, picks), |chunks|)
    ensures MsbReassembled(Pick(parties, picks), |chunks|) == Ok(FromChunksMsb(chunks))
  {
    var picked := Pick(parties, picks);
    var results := ChunkResults(picked, |chunks|);
    forall k | 0 <= k < |chunks|
      ensures results[k] == Ok(chunks[k])
    {
      assert ChunkColumn(picked, k) == Column(Pick(rows, picks), k);
      ColumnRecovers(rows, chunks, polys, THRESHOLD, NUM_PARTIES, PRIME, picks, k);
    }
    CollectValues(results, chunks);
  }

  /** A key below the prime is a single chunk (or none), so the reducing
      codec gives it back unchanged. */
  lemma ReducingCodecKeepsSmallKey(d: nat)
    requires d < PRIME
    ensures FromChunksMsb(ModSplitChunks(d)) == d
  {
    TwoToThe61();
    BitsAtMost(d, 61);
    var cs := ModSplitChunks(d);
    if d > 0 {
      assert |cs| == 1;
      DivModUnique(d, 1, d, 0);
      DivModUnique(d, PRIME, 0, d);
      assert cs == [d as u64];
      FromChunksMsbSnoc([], d);
    } else {
      assert Bits(d) == 0;
    }
  }

  /** Both drivers' `main`: five parties start with no shares and parties
      1, 3 and 5 collaborate; they rebuild the most-significant-first fold
      of the reduced chunks, which is d itself when d is below the prime. */
  lemma ParticipantsReassembly(d: nat, polys: seq<seq<u64>>, rows: seq<seq<Share>>, parties: seq<Party>)
    requires Prime(PRIME)
    requires Dealt(rows, ModSplitChunks(d), polys, THRESHOLD as nat, NUM_PARTIES as nat, PRIME)
    requires |parties| == NUM_PARTIES as int && forall i :: 0 <= i < |parties| ==> parties[i].shares == rows[i]
    ensures HoldChunks([parties[0], parties[2], parties[4]], |ModSplitChunks(d)|)
    ensures MsbReassembled([parties[0], parties[2], parties[4]], |ModSplitChunks(d)|) == Ok(FromChunksMsb(ModSplitChunks(d)))
    ensures d < PRIME ==> MsbReassembled([parties[0], parties[2], parties[4]], |ModSplitChunks(d)|) == Ok(d)
  {
    var picks: seq<nat> := [0, 2, 4];
    assert Pick(parties, picks) == [parties[0], parties[2], parties[4]];
    PartiesRecoverChunks(rows, ModSplitChunks(d), polys, parties, picks);
    if d < PRIME {
      ReducingCodecKeepsSmallKey(d);
    }
  }

  /** For the two-chunk exponent 2^61 + 1 the parties rebuild 2^62 + 1,
      so the comparison with the original exponent fails. */
  lemma TwoChunkKeyMismatch(polys: seq<seq<u64>>, rows: seq<seq<Share>>, parties: seq<Party>)
    requires Prime(PRIME)
    requires Dealt(rows, ModSplitChunks(CHUNK_BASE + 1), polys, THRESHOLD as nat, NUM_PARTIES as nat, PRIME)
    requires |parties| == NUM_PARTIES as int && forall i :: 0 <= i < |parties| ==> parties[i].shares == rows[i]
    ensures HoldChunks([parties[0], parties[2], parties[4]], 2)
    ensures MsbReassembled([parties[0], parties[2], parties[4]], 2) == Ok(2 * CHUNK_BASE + 1)
  {
    ReducingCodecLosesTwoChunkKey();
    ParticipantsReassembly(CHUNK_BASE + 1, polys, rows, parties);
  }
}

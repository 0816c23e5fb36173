/** The multi-party TLS handshake test: the server splits its private
    exponent 3-of-5 with chunks reduced modulo 2^61 - 1, parties 1, 3 and
    5 rebuild it most significant first, and the decryption step refuses
    to go on unless the rebuilt exponent equals the original. */
module HandshakeTest {
  import opened Results
  import opened Field
  import opened Fermat
  import opened Lagrange
  import opened Shamir
  import opened Chunks
  import opened Dealing
  import opened ReducingDrivers

  const RSA_KEY_BITS: nat := 2048

  /** The checked conversion of a chunk to a machine word: no word for a
      value wider than 64 bits or for the all-ones word (the error value
      of `BN_get_word`); otherwise the value, reduced if it is at or above
      the prime. */
  method ToWordChecked(chunk: nat) returns (r: Option<u64>)
    ensures r.None? <==> chunk >= UINT64_MAX as nat
    ensures r.Some? ==> r.value < PRIME && r.value as nat == chunk % PRIME as nat
    ensures chunk < PRIME ==> r == Some(chunk as u64)
  {
    BitsWithin64(chunk);
    if Bits(chunk) > 64 {
      return None;
    }
    var value := chunk as u64;
    if value == UINT64_MAX {
      return None;
    }
    if value >= PRIME {
      value := value % PRIME;
    } else {
      DivModUnique(value, PRIME, 0, value);
    }
    return Some(value);
  }

  class MultiPartyTlsServer {
    const sss: ShamirSecretSharing
    var numKeyChunks: nat

    ghost predicate Valid()
    {
      sss.Valid() && sss.threshold == THRESHOLD && sss.numShares == NUM_PARTIES && sss.prime == PRIME
    }

    /** The 3-of-5 instance over 2^61 - 1, which the scheme accepts. */
    constructor ()
      ensures Valid()
    {
      sss := new ShamirSecretSharing(THRESHOLD, NUM_PARTIES, PRIME);
      numKeyChunks := 0;
    }

    /** `distributeKeyShares` for the private exponent d. Its refusals (a
        chunk too wide for a word, the all-ones word, a `split` that
        throws) cannot happen, as every reduced chunk is below the prime:
        it always returns true, with party p + 1 holding share p + 1 of
        every chunk after what it held before. */
    method DistributeKeyShares(d: nat, parties: array<Party>)
      returns (ok: bool, ghost polys: seq<seq<u64>>, ghost rows: seq<seq<Share>>)
      requires Valid() && parties.Length >= NUM_PARTIES as int
      modifies this, parties
      ensures ok
      ensures numKeyChunks == |ModSplitChunks(d)|
      ensures Dealt(rows, ModSplitChunks(d), polys, THRESHOLD as nat, NUM_PARTIES as nat, PRIME)
      ensures forall p :: 0 <= p < NUM_PARTIES as int ==>
        parties[p] == old(parties[p]).(shares := old(parties[p]).shares + rows[p])
      ensures forall p :: NUM_PARTIES as int <= p < parties.Length ==> parties[p] == old(parties[p])
    {
      var numBits := Bits(d);
      var numChunks := (numBits + CHUNK_BITS - 1) / CHUNK_BITS;
      ghost var chunks := ModSplitChunks(d);
      var allChunkShares: seq<seq<Share>> := [];
      polys := [];
      for k := 0 to numChunks
        invariant |allChunkShares| == k == |polys| && unchanged(parties)
        invariant forall j :: 0 <= j < k ==>
          IsSharingPolynomial(polys[j], chunks[j], THRESHOLD as nat, PRIME) && AreSharesOf(allChunkShares[j], polys[j], NUM_PARTIES as nat, PRIME)
      {
        var chunk := ExtractChunk(d, k);
        var word := ToWordChecked(chunk);
        assert word.Some?;
        var shares, poly := sss.Split(word.value);
        assert shares.Ok?;
        allChunkShares := allChunkShares + [shares.value];
        polys := polys + [poly];
      }
      TransposedDealt(allChunkShares, chunks, polys, THRESHOLD as nat, NUM_PARTIES as nat, PRIME);
      rows := Transposed(allChunkShares, NUM_PARTIES as nat);
      DistributeShares(parties, allChunkShares);
      numKeyChunks := numChunks;
      return true, polys, rows;
    }
  }

  /** `collaborativeDecrypt`, up to the RSA decryption: the participants
      rebuild d (an exception from `reconstruct` escapes); the result is
      false when the rebuilt exponent differs from the original, and
      otherwise whether the decryption succeeded. */
  method CollaborativeDecrypt(participating: seq<Party>, numChunks: nat, original: nat, decrypted: bool)
    returns (r: Result<bool, SharingError>)
    requires HoldChunks(participating, numChunks)
    ensures r.Err? <==> MsbReassembled(participating, numChunks).Err?
    ensures r.Err? ==> r.error == MsbReassembled(participating, numChunks).error
    ensures r.Ok? ==> (r.value <==> MsbReassembled(participating, numChunks).value == original && decrypted)
  {
    var reconstructed := ReassembleMsb(participating, numChunks);
    if reconstructed.Err? {
      return Err(reconstructed.error);
    }
    if reconstructed.value != original {
      return Ok(false);
    }
    return Ok(decrypted);
  }
}

/** The multi-party TLS demo: a server splits its RSA private exponent
    3-of-5 among five parties, and parties 1, 3 and 5 rebuild it to
    decrypt the client's pre-master secret. The chunks are reduced modulo
    2^61 - 1 and reassembled most significant first. */
module TlsSimple {
  import opened Results
  import opened Field
  import opened Fermat
  import opened Lagrange
  import opened Shamir
  import opened Chunks
  import opened Dealing
  import opened ReducingDrivers

  const RSA_BITS: nat := 2048

  /** The conversion of a chunk to a machine word: a value wider than 64
      bits reads as 0, and a value at or above the prime is reduced. */
  method ToWord(chunk: nat) returns (v: u64)
    ensures v < PRIME
    ensures chunk < PRIME ==> v == chunk
    ensures chunk >= TWO64 ==> v == 0
    ensures chunk < TWO64 ==> v == chunk % PRIME
  {
    BitsWithin64(chunk);
    var value: u64 := 0;
    if Bits(chunk) <= 64 {
      value := chunk as u64;
    }
    if value >= PRIME {
      value := value % PRIME;
    } else {
      DivModUnique(value, PRIME, 0, value);
    }
    v := value;
  }

  class DistributedTlsServer {
    var numKeyChunks: nat

    constructor ()
    {
      numKeyChunks := 0;
    }

    /** `setupDistributedKey` for the private exponent d: every chunk
        goes through `split` (which cannot refuse it, as it is below the
        prime), then party p + 1 receives share p + 1 of every chunk,
        appended to what it already holds. */
    method SetupDistributedKey(d: nat, parties: array<Party>)
      returns (ghost polys: seq<seq<u64>>, ghost rows: seq<seq<Share>>)
      requires parties.Length >= NUM_PARTIES as int
      modifies this, parties
      ensures numKeyChunks == |ModSplitChunks(d)|
      ensures Dealt(rows, ModSplitChunks(d), polys, THRESHOLD as nat, NUM_PARTIES as nat, PRIME)
      ensures forall p :: 0 <= p < NUM_PARTIES as int ==>
        parties[p] == old(parties[p]).(shares := old(parties[p]).shares + rows[p])
      ensures forall p :: NUM_PARTIES as int <= p < parties.Length ==> parties[p] == old(parties[p])
    {
      var sss := new ShamirSecretSharing(THRESHOLD, NUM_PARTIES, PRIME);
      var numBits := Bits(d);
      var numChunks := (numBits + CHUNK_BITS - 1) / CHUNK_BITS;
      ghost var chunks := ModSplitChunks(d);
      var allShares: seq<seq<Share>> := [];
      polys := [];
      for k := 0 to numChunks
        invariant |allShares| == k == |polys| && unchanged(parties)
        invariant forall j :: 0 <= j < k ==>
          IsSharingPolynomial(polys[j], chunks[j], THRESHOLD as nat, PRIME) && AreSharesOf(allShares[j], polys[j], NUM_PARTIES as nat, PRIME)
      {
        var chunk := ExtractChunk(d, k);
        var value := ToWord(chunk);
        var shares, poly := sss.Split(value);
        assert shares.Ok?;
        allShares := allShares + [shares.value];
        polys := polys + [poly];
      }
      TransposedDealt(allShares, chunks, polys, THRESHOLD as nat, NUM_PARTIES as nat, PRIME);
      rows := Transposed(allShares, NUM_PARTIES as nat);
      DistributeShares(parties, allShares);
      numKeyChunks := numChunks;
    }
  }

  /** `collaborativeDecrypt`, up to the RSA decryption: the participants
      rebuild d (an exception from `reconstruct` escapes); a mismatch with
      the original exponent only raises a warning, and the decryption,
      which uses a copy of the original key, decides the result. */
  method CollaborativeDecrypt(participating: seq<Party>, numChunks: nat, original: nat, decrypted: bool)
    returns (r: Result<bool, SharingError>, warned: bool)
    requires HoldChunks(participating, numChunks)
    ensures r.Err? <==> MsbReassembled(participating, numChunks).Err?
    ensures r.Err? ==> r.error == MsbReassembled(participating, numChunks).error
    ensures r.Ok? ==> r.value == decrypted
    ensures r.Ok? ==> (warned <==> MsbReassembled(participating, numChunks).value != original)
  {
    var reconstructed := ReassembleMsb(participating, numChunks);
    if reconstructed.Err? {
      return Err(reconstructed.error), false;
    }
    warned := reconstructed.value != original;
    r := Ok(decrypted);
  }
}

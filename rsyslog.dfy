/** The rsyslog key manager: a 3-of-5 split of the RSA private exponent,
    chunk by chunk, into one share bundle per authorization party, the
    bundles' file format, and reconstruction from the bundles of the
    parties that take part. */
module Rsyslog {
  import opened Results
  import opened Field
  import opened Fermat
  import opened Lagrange
  import opened Shamir
  import opened Chunks
  import opened Dealing
  import opened Bytes

  const THRESHOLD: u64 := 3
  const NUM_PARTIES: u64 := 5

  const PARTY_NAMES: seq<string> := [
    "Judicial Authority",
    "Law Enforcement",
    "Network Security Officer",
    "Privacy Oversight Officer",
    "Independent Auditor"
  ]

  /** One party's bundle: who it is, how many chunks the key has, and its
      share of each chunk. */
  datatype KeyShareData = KeyShareData(partyId: u64, partyName: string, numChunks: u64, shares: seq<Share>)

  // ---------------------------------------------------------------------
  // The bundle file: party id, name length, name bytes, chunk count, then
  // an (id, value) pair per share, every number a raw 64-bit word.
  // ---------------------------------------------------------------------

  /** A `std::string` holds bytes: each character is written as one byte. */
  function NameBytes(name: string): (r: seq<byte>)
    ensures |r| == |name| && forall i :: 0 <= i < |name| ==> r[i] == name[i] as int % 256
  {
    seq(|name|, i requires 0 <= i < |name| => name[i] as int % 256)
  }

  function BytesName(b: seq<byte>): (r: string)
    ensures |r| == |b| && forall i :: 0 <= i < |b| ==> r[i] as int == b[i]
  {
    seq(|b|, i requires 0 <= i < |b| => b[i] as char)
  }

  function EncodeShares(shares: seq<Share>): (r: seq<byte>)
    ensures |r| == 16 * |shares|
  {
    if shares == [] then []
    else
      var last := shares[|shares| - 1];
      EncodeShares(shares[..|shares| - 1]) + Word(last.id) + Word(last.value)
  }

  /** The bytes `saveToFile` writes. */
  function Encode(data: KeyShareData): seq<byte>
    requires |data.partyName| < TWO64
  {
    Header(data) + EncodeShares(data.shares)
  }

  /** Party id, name length, name, chunk count. */
  function Header(data: KeyShareData): (r: seq<byte>)
    requires |data.partyName| < TWO64
    ensures |r| == 24 + |data.partyName|
  {
    Word(data.partyId) + Word(|data.partyName|) + NameBytes(data.partyName) + Word(data.numChunks)
  }

  /** One (id, value) pair at `pos`. */
  function ReadShare(file: seq<byte>, pos: nat): (r: Option<Share>)
    ensures r.Some? <==> pos + 16 <= |file|
  {
    match ReadWord(file, pos)
    case None => None
    case Some(id) =>
      match ReadWord(file, pos + 8)
      case None => None
      case Some(value) => Some(Share(id, value))
  }

  /** The first `count` pairs from `start` on, or None when the file ends
      before them. */
  function DecodeShares(file: seq<byte>, start: nat, count: nat): (r: Option<seq<Share>>)
    ensures r.Some? ==> |r.value| == count
  {
    if count == 0 then Some([])
    else match DecodeShares(file, start, count - 1)
      case None => None
      case Some(prev) =>
        match ReadShare(file, start + 16 * (count - 1))
        case None => None
        case Some(s) => Some(prev + [s])
  }

  /** What `loadFromFile` reads: the header, then exactly `num_chunks`
      pairs; trailing bytes are not looked at. */
  function Decode(file: seq<byte>): Option<KeyShareData>
  {
    match ReadWord(file, 0)
    case None => None
    case Some(id) =>
      match ReadWord(file, 8)
      case None => None
      case Some(len) =>
        if 16 + len > |file| then None
        else
          match ReadWord(file, 16 + len)
          case None => None
          case Some(n) =>
            match DecodeShares(file, 24 + len, n)
            case None => None
            case Some(shares) => Some(KeyShareData(id, BytesName(file[16..16 + len]), n, shares))
  }

  /** A pair written after any prefix is read back at that offset. */
  lemma ReadShareAt(pre: seq<byte>, s: Share, post: seq<byte>)
    ensures ReadShare(pre + Word(s.id) + Word(s.value) + post, |pre|) == Some(s)
  {
    var file := pre + Word(s.id) + Word(s.value) + post;
    assert file == pre + Word(s.id) + (Word(s.value) + post);
    ReadWordAt(pre, s.id, Word(s.value) + post);
    ReadWordAt(pre + Word(s.id), s.value, post);
  }

  /** Pairs readable one after another from `start` on are decoded. */
  lemma {:induction false} DecodeSharesReadable(file: seq<byte>, start: nat, shares: seq<Share>)
    requires forall k :: 0 <= k < |shares| ==> ReadShare(file, start + 16 * k) == Some(shares[k])
    ensures DecodeShares(file, start, |shares|) == Some(shares)
    decreases |shares|
  {
    if shares != [] {
      var n := |shares|;
      var prefix := shares[..n - 1];
      forall k | 0 <= k < n - 1
        ensures ReadShare(file, start + 16 * k) == Some(prefix[k])
      {
        assert prefix[k] == shares[k];
      }
      DecodeSharesReadable(file, start, prefix);
      assert ReadShare(file, start + 16 * (n - 1)) == Some(shares[n - 1]);
      assert DecodeShares(file, start, n) == Some(prefix + [shares[n - 1]]);
      assert prefix + [shares[n - 1]] == shares;
    }
  }

  /** The k-th pair written by `EncodeShares` is read back from its place. */
  lemma {:induction false} EncodedShareAt(pre: seq<byte>, shares: seq<Share>, post: seq<byte>, k: nat)
    requires k < |shares|
    ensures ReadShare(pre + EncodeShares(shares) + post, |pre| + 16 * k) == Some(shares[k])
    decreases |shares|
  {
    var n := |shares|;
    var s', last := shares[..n - 1], shares[n - 1];
    var body := EncodeShares(s');
    var file := pre + EncodeShares(shares) + post;
    if k == n - 1 {
      assert file == (pre + body) + Word(last.id) + Word(last.value) + post;
      ReadShareAt(pre + body, last, post);
    } else {
      assert file == pre + body + (Word(last.id) + Word(last.value) + post);
      EncodedShareAt(pre, s', Word(last.id) + Word(last.value) + post, k);
    }
  }

  lemma DecodeSharesOfEncoded(pre: seq<byte>, shares: seq<Share>, post: seq<byte>)
    ensures DecodeShares(pre + EncodeShares(shares) + post, |pre|, |shares|) == Some(shares)
  {
    var file := pre + EncodeShares(shares) + post;
    forall k | 0 <= k < |shares|
      ensures ReadShare(file, |pre| + 16 * k) == Some(shares[k])
    {
      EncodedShareAt(pre, shares, post, k);
    }
    DecodeSharesReadable(file, |pre|, shares);
  }

  lemma NameRoundTrip(name: string)
    requires forall i :: 0 <= i < |name| ==> name[i] as int < 256
    ensures BytesName(NameBytes(name)) == name
  {
  }

  /** The header fields are read back from where they were written. */
  lemma ReadHeader(data: KeyShareData, tail: seq<byte>)
    requires |data.partyName| < TWO64
    ensures var file, len := Header(data) + tail, |data.partyName|;
      ReadWord(file, 0) == Some(data.partyId) && ReadWord(file, 8) == Some(len)
      && 16 + len <= |file| && file[16..16 + len] == NameBytes(data.partyName)
      && ReadWord(file, 16 + len) == Some(data.numChunks)
  {
    var name := NameBytes(data.partyName);
    var len: u64 := |data.partyName|;
    var h1, h2, h3 := Word(data.partyId), Word(len), Word(data.numChunks);
    var file := Header(data) + tail;
    assert file == h1 + h2 + name + h3 + tail;
    assert ReadWord(file, 0) == Some(data.partyId) by {
      assert file == [] + h1 + (h2 + name + h3 + tail);
      ReadWordAt([], data.partyId, h2 + name + h3 + tail);
    }
    assert ReadWord(file, 8) == Some(len) by {
      assert file == h1 + h2 + (name + h3 + tail);
      ReadWordAt(h1, len, name + h3 + tail);
    }
    assert file[16..16 + len] == name by {
      assert file == (h1 + h2) + name + (h3 + tail);
    }
    assert ReadWord(file, 16 + len) == Some(data.numChunks) by {
      assert file == (h1 + h2 + name) + h3 + tail;
      ReadWordAt(h1 + h2 + name, data.numChunks, tail);
    }
  }

  /** Loading what was saved gives the bundle back, whatever follows it in
      the file, provided the bundle holds `num_chunks` shares and its name
      is made of bytes. */
  lemma DecodeEncode(data: KeyShareData, rest: seq<byte>)
    requires |data.partyName| < TWO64 && |data.shares| == data.numChunks
    requires forall i :: 0 <= i < |data.partyName| ==> data.partyName[i] as int < 256
    ensures Decode(Encode(data) + rest) == Some(data)
  {
    var file := Encode(data) + rest;
    assert file == Header(data) + (EncodeShares(data.shares) + rest);
    ReadHeader(data, EncodeShares(data.shares) + rest);
    NameRoundTrip(data.partyName);
    assert file == Header(data) + EncodeShares(data.shares) + rest;
    DecodeSharesOfEncoded(Header(data), data.shares, rest);
  }

  /** `saveToFile`: the header, then the shares one pair at a time. */
  method SaveToFile(data: KeyShareData) returns (file: seq<byte>)
    requires |data.partyName| < TWO64
    ensures file == Encode(data)
  {
    var nameLen: u64 := |data.partyName|;
    file := Word(data.partyId) + Word(nameLen) + NameBytes(data.partyName) + Word(data.numChunks);
    assert file == Header(data);
    ghost var header := file;
    for i := 0 to |data.shares|
      invariant file == header + EncodeShares(data.shares[..i])
    {
      var share := data.shares[i];
      assert data.shares[..i + 1][..i] == data.shares[..i];
      file := file + Word(share.id) + Word(share.value);
    }
    assert data.shares[..|data.shares|] == data.shares;
  }

  lemma {:induction false} DecodeSharesFailurePersists(file: seq<byte>, start: nat, k: nat, count: nat)
    requires k <= count && DecodeShares(file, start, k).None?
    ensures DecodeShares(file, start, count).None?
    decreases count - k
  {
    if k < count {
      DecodeSharesFailurePersists(file, start, k + 1, count);
    }
  }

  /** One more pair read: the list grows by it, or decoding fails when
      either word of the pair is missing. */
  lemma DecodeSharesStep(file: seq<byte>, start: nat, i: nat, shares: seq<Share>)
    requires DecodeShares(file, start, i) == Some(shares)
    ensures ReadWord(file, start + 16 * i).None? || ReadWord(file, start + 16 * i + 8).None? ==>
      DecodeShares(file, start, i + 1).None?
    ensures ReadWord(file, start + 16 * i).Some? && ReadWord(file, start + 16 * i + 8).Some? ==>
      DecodeShares(file, start, i + 1) ==
        Some(shares + [Share(ReadWord(file, start + 16 * i).value, ReadWord(file, start + 16 * i + 8).value)])
  {
    assert start + 16 * (i + 1 - 1) == start + 16 * i;
  }

  /** `loadFromFile`: reads the header, then `num_chunks` pairs; any read
      past the end of the file makes it fail. */
  method LoadFromFile(file: seq<byte>) returns (r: Option<KeyShareData>)
    ensures r == Decode(file)
  {
    var partyId := ReadWord(file, 0);
    if partyId.None? {
      return None;
    }
    var nameLen := ReadWord(file, 8);
    if nameLen.None? {
      return None;
    }
    var len := nameLen.value;
    if 16 + len > |file| {
      return None;
    }
    var name := BytesName(file[16..16 + len]);
    var numChunks := ReadWord(file, 16 + len);
    if numChunks.None? {
      return None;
    }
    var start := 24 + len;
    var shares: seq<Share> := [];
    for i := 0 to numChunks.value
      invariant DecodeShares(file, start, i) == Some(shares)
    {
      var id := ReadWord(file, start + 16 * i);
      var value := ReadWord(file, start + 16 * i + 8);
      DecodeSharesStep(file, start, i, shares);
      if id.None? || value.None? {
        DecodeSharesFailurePersists(file, start, i + 1, numChunks.value);
        return None;
      }
      shares := shares + [Share(id.value, value.value)];
    }
    return Some(KeyShareData(partyId.value, name, numChunks.value, shares));
  }

  // ---------------------------------------------------------------------
  // Splitting and reconstructing the private exponent.
  // ---------------------------------------------------------------------

  function Rows(parties: seq<KeyShareData>): (r: seq<seq<Share>>)
    ensures |r| == |parties| && forall i :: 0 <= i < |parties| ==> r[i] == parties[i].shares
  {
    seq(|parties|, i requires 0 <= i < |parties| => parties[i].shares)
  }

  /** The bundles `splitPrivateKey` leaves for exponent d: party i has id
      i + 1, its name, the chunk count, and share i + 1 of every chunk. */
  ghost predicate BundlesOf(parties: seq<KeyShareData>, d: nat, polys: seq<seq<u64>>)
  {
    |parties| == NUM_PARTIES
    && (forall i :: 0 <= i < NUM_PARTIES ==>
          parties[i].partyId == i + 1 && parties[i].partyName == PARTY_NAMES[i]
          && parties[i].numChunks as int == NumChunks(Bits(d)))
    && Dealt(Rows(parties), SplitChunks(d), polys, THRESHOLD, NUM_PARTIES, PRIME)
  }

  /** The parties' shares of chunk k, in party order, leaving out every
      party whose list has no k-th share. */
  function Gathered(parties: seq<KeyShareData>, k: nat): (r: seq<Share>)
    ensures |r| <= |parties|
  {
    if parties == [] then []
    else
      var last := parties[|parties| - 1];
      Gathered(parties[..|parties| - 1], k) + (if k < |last.shares| then [last.shares[k]] else [])
  }

  /** When every party has a k-th share, the gathered shares are those, one
      per party, in order. */
  lemma {:induction false} GatheredFull(parties: seq<KeyShareData>, k: nat)
    requires forall j :: 0 <= j < |parties| ==> k < |parties[j].shares|
    ensures |Gathered(parties, k)| == |parties|
    ensures forall j :: 0 <= j < |parties| ==> Gathered(parties, k)[j] == parties[j].shares[k]
    decreases |parties|
  {
    if parties != [] {
      GatheredFull(parties[..|parties| - 1], k);
    }
  }

  /** Chunks 0, ..., K-1, each reconstructed from the shares gathered
      for it. */
  function ChunkResults(parties: seq<KeyShareData>, K: nat): (r: seq<Result<u64, SharingError>>)
    ensures |r| == K && forall k :: 0 <= k < K ==> r[k] == Reconstructed(THRESHOLD, PRIME, Gathered(parties, k))
  {
    seq(K, k requires 0 <= k < K => Reconstructed(THRESHOLD, PRIME, Gathered(parties, k)))
  }

  datatype KeyError = TooFewParties | SharingFailed(error: SharingError)

  /** What `reconstructPrivateKey` computes: no key for fewer than three
      parties, otherwise the chunk count of the first party's bundle
      decides how many chunks are reconstructed, the first failing chunk
      ends the run, and the chunks are added least significant first. */
  function Reassembled(parties: seq<KeyShareData>): Result<int, KeyError>
  {
    if |parties| < THRESHOLD then Err(TooFewParties)
    else match Collect(ChunkResults(parties, parties[0].numChunks as nat))
      case Err(e) => Err(SharingFailed(e))
      case Ok(chunks) => Ok(FromChunks(chunks))
  }

  class MultiPartyKeyManager {
    const sss: ShamirSecretSharing

    ghost predicate Valid()
    {
      sss.Valid() && sss.threshold == THRESHOLD && sss.numShares == NUM_PARTIES && sss.prime == PRIME
    }

    constructor ()
      ensures Valid()
    {
      sss := new ShamirSecretSharing(THRESHOLD, NUM_PARTIES, PRIME);
    }

    /** One share of the current chunk to every party. */
    static method Distribute(parties: seq<KeyShareData>, shares: seq<Share>) returns (r: seq<KeyShareData>)
      requires |shares| >= |parties|
      ensures |r| == |parties|
      ensures forall i :: 0 <= i < |parties| ==> r[i] == parties[i].(shares := parties[i].shares + [shares[i]])
    {
      r := parties;
      for i := 0 to |parties|
        invariant |r| == |parties|
        invariant forall j :: 0 <= j < i ==> r[j] == parties[j].(shares := parties[j].shares + [shares[j]])
        invariant forall j :: i <= j < |parties| ==> r[j] == parties[j]
      {
        r := r[i := r[i].(shares := r[i].shares + [shares[i]])];
      }
    }

    /** `splitPrivateKey` on the exponent d: five bundles with ids 1..5,
        the chunk count ceil(bits / 61), and, chunk by chunk, the shares
        of a fresh `split` of the masked chunk, which throws on a chunk
        equal to the prime. */
    method SplitPrivateKey(d: nat) returns (r: Result<seq<KeyShareData>, SharingError>, ghost polys: seq<seq<u64>>)
      requires Valid() && Bits(d) < 0x8000_0000
      ensures r.Err? <==> PRIME in SplitChunks(d)
      ensures r.Err? ==> r.error == SecretNotBelowPrime
      ensures r.Ok? ==> BundlesOf(r.value, d, polys)
    {
      var dBits := Bits(d);
      var numChunks: u64 := (dBits + CHUNK_BITS - 1) / CHUNK_BITS;
      ghost var chunks := SplitChunks(d);
      var parties: seq<KeyShareData> := [];
      for i := 0 to NUM_PARTIES
        invariant |parties| == i
        invariant forall j :: 0 <= j < i ==> parties[j] == KeyShareData(j + 1, PARTY_NAMES[j], numChunks, [])
      {
        parties := parties + [KeyShareData(i + 1, PARTY_NAMES[i], numChunks, [])];
      }
      polys := [];
      for chunkId := 0 to numChunks
        invariant |parties| == NUM_PARTIES
        invariant forall i :: 0 <= i < NUM_PARTIES ==>
          parties[i].partyId == i + 1 && parties[i].partyName == PARTY_NAMES[i] && parties[i].numChunks == numChunks
        invariant Dealt(Rows(parties), chunks[..chunkId], polys, THRESHOLD, NUM_PARTIES, PRIME)
        invariant PRIME !in chunks[..chunkId]
      {
        var chunkValue := (d / Shift(chunkId)) % CHUNK_BASE;
        assert chunkValue == chunks[chunkId];
        var shares, poly := sss.Split(chunkValue);
        if shares.Err? {
          assert chunks[chunkId] == PRIME;
          return Err(shares.error), polys;
        }
        DealtExtend(Rows(parties), chunks[..chunkId], polys, THRESHOLD, NUM_PARTIES, PRIME,
                    shares.value, chunkValue, poly);
        var parties' := Distribute(parties, shares.value);
        assert Rows(parties') == Append(Rows(parties), shares.value);
        assert chunks[..chunkId + 1] == chunks[..chunkId] + [chunkValue];
        parties := parties';
        polys := polys + [poly];
      }
      assert chunks[..numChunks] == chunks;
      return Ok(parties), polys;
    }

    /** The inner loop of `reconstructPrivateKey`: every party's k-th
        share, skipping parties that have too few. */
    static method GatherChunkShares(parties: seq<KeyShareData>, chunkId: nat) returns (chunkShares: seq<Share>)
      ensures chunkShares == Gathered(parties, chunkId)
    {
      chunkShares := [];
      for j := 0 to |parties|
        invariant chunkShares == Gathered(parties[..j], chunkId)
      {
        assert parties[..j + 1][..j] == parties[..j];
        if chunkId < |parties[j].shares| {
          chunkShares := chunkShares + [parties[j].shares[chunkId]];
        }
      }
      assert parties[..|parties|] == parties;
    }

    /** The shares the parties hold of chunk `chunkId`, reconstructed. */
    method ReconstructChunk(parties: seq<KeyShareData>, chunkId: nat) returns (v: Result<u64, SharingError>)
      requires Valid()
      ensures v == Reconstructed(THRESHOLD, PRIME, Gathered(parties, chunkId))
    {
      var chunkShares := GatherChunkShares(parties, chunkId);
      v := sss.Reconstruct(chunkShares);
    }

    /** `reconstructPrivateKey`, up to the reassembled exponent. */
    method ReconstructPrivateKey(parties: seq<KeyShareData>) returns (r: Result<int, KeyError>)
      requires Valid()
      ensures r == Reassembled(parties)
    {
      if |parties| < THRESHOLD {
        return Err(TooFewParties);
      }
      var numChunks: nat := parties[0].numChunks as nat;
      ghost var results := ChunkResults(parties, numChunks);
      ghost var chunks: seq<u64> := [];
      var d: nat := 0;
      for chunkId := 0 to numChunks
        invariant Collect(results[..chunkId]) == Ok(chunks) && d == FromChunks(chunks)
      {
        var chunkValue := ReconstructChunk(parties, chunkId);
        CollectStep(results, chunkId, chunks);
        if chunkValue.Err? {
          return Err(SharingFailed(chunkValue.error));
        }
        d := d + Weighted(chunkValue.value, chunkId);
        chunks := chunks + [chunkValue.value];
      }
      assert results[..numChunks] == results;
      return Ok(d);
    }
  }

  /** Bundles dealt for d, no chunk equal to the prime, and at least three
      distinct parties picked. */
  ghost predicate Recoverable(all: seq<KeyShareData>, d: nat, polys: seq<seq<u64>>, picks: seq<nat>)
  {
    Prime(PRIME) && BundlesOf(all, d, polys) && PRIME !in SplitChunks(d)
    && |picks| >= THRESHOLD && DistinctPicks(picks, NUM_PARTIES)
  }

  /** Chunk k is recovered from the shares the picked parties hold. */
  lemma ChunkRecovered(all: seq<KeyShareData>, d: nat, polys: seq<seq<u64>>, picks: seq<nat>, k: nat)
    requires Recoverable(all, d, polys, picks)
    requires k < |SplitChunks(d)|
    ensures Reconstructed(THRESHOLD, PRIME, Gathered(Pick(all, picks), k)) == Ok(SplitChunks(d)[k])
  {
    var parties, rows := Pick(all, picks), Rows(all);
    GatheredFull(parties, k);
    assert Gathered(parties, k) == Column(Pick(rows, picks), k);
    ColumnRecovers(rows, SplitChunks(d), polys, THRESHOLD, NUM_PARTIES, PRIME, picks, k);
  }

  /** The key manager's promise: reconstructing from the bundles of any
      three or more distinct parties gives back the exponent that was
      split, whenever the split succeeded. */
  lemma SplitThenReconstruct(all: seq<KeyShareData>, d: nat, polys: seq<seq<u64>>, picks: seq<nat>)
    requires Prime(PRIME) && BundlesOf(all, d, polys) && PRIME !in SplitChunks(d)
    requires |picks| >= THRESHOLD && DistinctPicks(picks, NUM_PARTIES)
    ensures Reassembled(Pick(all, picks)) == Ok(d)
  {
    var parties := Pick(all, picks);
    var chunks := SplitChunks(d);
    assert parties[0].numChunks as nat == |chunks|;
    var results := ChunkResults(parties, |chunks|);
    forall k | 0 <= k < |chunks|
      ensures results[k] == Ok(chunks[k])
    {
      ChunkRecovered(all, d, polys, picks, k);
    }
    CollectValues(results, chunks);
    ChunksRoundTrip(d);
  }
}

/** The `MultiPartyKeyGenerator` tool: the RSA private exponent is cut
    into 61-bit chunks, every chunk is split among n parties with a (t, n)
    scheme over 2^61 - 1, the exponent is reassembled from the parties
    named in a list of ids, and every party's shares are written to a
    file of its own. */
module KeyGenerator {
  import opened Results
  import opened Field
  import opened Fermat
  import opened Lagrange
  import opened Shamir
  import opened Chunks
  import opened Dealing
  import opened Bytes
  import Rsyslog

  /** `PartyShares`: a party's id and its share of every chunk, in chunk
      order. */
  datatype PartyShares = PartyShares(partyId: u64, shares: seq<Share>)

  datatype KeyError =
    | ThresholdAboveParties      // `main`: threshold > num_parties
    | BadParameters(error: SharingError)  // the `ShamirSecretSharing` constructor throws
    | TooFewParties              // reconstructPrivateKey: fewer ids than the threshold
    | SharingFailed(error: SharingError)  // `reconstruct` throws for some chunk

  function ShareRows(all: seq<PartyShares>): (r: seq<seq<Share>>)
    ensures |r| == |all| && forall i :: 0 <= i < |all| ==> r[i] == all[i].shares
  {
    seq(|all|, i requires 0 <= i < |all| => all[i].shares)
  }

  /** n bundles with ids 1, ..., n, each holding K shares. */
  ghost predicate Shaped(all: seq<PartyShares>, n: nat, K: nat)
  {
    |all| == n && forall i :: 0 <= i < n ==> all[i].partyId as int == i + 1 && |all[i].shares| == K
  }

  // ---------------------------------------------------------------------
  // Choosing the parties.
  // ---------------------------------------------------------------------

  /** The positions of the parties the ids name, in list order: an id
      outside 1..n names no party and is dropped. */
  function Selected(ids: seq<u64>, n: u64): (r: seq<nat>)
    ensures |r| <= |ids|
    ensures forall j :: 0 <= j < |r| ==> r[j] < n as int
  {
    if ids == [] then []
    else
      var last := ids[|ids| - 1];
      Selected(ids[..|ids| - 1], n) + (if 0 < last <= n then [last as nat - 1] else [])
  }

  /** When every id names a party, party id x sits at position x - 1. */
  lemma {:induction false} SelectedInRange(ids: seq<u64>, n: u64)
    requires forall j :: 0 <= j < |ids| ==> 0 < ids[j] <= n
    ensures |Selected(ids, n)| == |ids|
    ensures forall j :: 0 <= j < |ids| ==> Selected(ids, n)[j] == ids[j] as nat - 1
    decreases |ids|
  {
    if ids != [] {
      var prefix := ids[..|ids| - 1];
      SelectedInRange(prefix, n);
      assert Selected(ids, n) == Selected(prefix, n) + [ids[|ids| - 1] as nat - 1];
    }
  }

  /** An id that names no party changes nothing, wherever it stands. */
  lemma {:induction false} SelectedIgnoresOutOfRange(a: seq<u64>, x: u64, b: seq<u64>, n: u64)
    requires x == 0 || x > n
    ensures Selected(a + [x] + b, n) == Selected(a + b, n)
    decreases |b|
  {
    if b == [] {
      assert (a + [x] + b)[..|a| + 1 - 1] == a;
      assert a + b == a;
    } else {
      var b' := b[..|b| - 1];
      var last := b[|b| - 1];
      SelectedIgnoresOutOfRange(a, x, b', n);
      assert (a + [x] + b)[..|a + [x] + b| - 1] == a + [x] + b';
      assert (a + b)[..|a + b| - 1] == a + b';
    }
  }

  // ---------------------------------------------------------------------
  // Reconstruction, as a function of the bundles.
  // ---------------------------------------------------------------------

  /** The picked parties' shares of chunk k, in pick order. */
  function ChunkShares(all: seq<PartyShares>, picks: seq<nat>, k: nat): (r: seq<Share>)
    requires forall j :: 0 <= j < |picks| ==> picks[j] < |all| && k < |all[picks[j]].shares|
    ensures |r| == |picks| && forall j :: 0 <= j < |picks| ==> r[j] == all[picks[j]].shares[k]
  {
    Column(Pick(ShareRows(all), picks), k)
  }

  lemma ChunkSharesSnoc(all: seq<PartyShares>, picks: seq<nat>, extra: seq<nat>, k: nat)
    requires forall j :: 0 <= j < |picks| ==> picks[j] < |all| && k < |all[picks[j]].shares|
    requires |extra| <= 1 && forall j :: 0 <= j < |extra| ==> extra[j] < |all| && k < |all[extra[j]].shares|
    ensures ChunkShares(all, picks + extra, k)
      == ChunkShares(all, picks, k) + (if extra == [] then [] else [all[extra[0]].shares[k]])
  {
    var lhs := ChunkShares(all, picks + extra, k);
    var rhs := ChunkShares(all, picks, k) + (if extra == [] then [] else [all[extra[0]].shares[k]]);
    assert |lhs| == |rhs|;
    forall j | 0 <= j < |lhs|
      ensures lhs[j] == rhs[j]
    {
      if j < |picks| {
        assert (picks + extra)[j] == picks[j];
      } else {
        assert (picks + extra)[j] == extra[0];
      }
    }
  }

  /** Chunks 0, ..., K-1, each reconstructed from the picked parties'
      shares of it. */
  function ChunkResults(all: seq<PartyShares>, picks: seq<nat>, t: u64, K: nat): (r: seq<Result<u64, SharingError>>)
    requires forall j :: 0 <= j < |picks| ==> picks[j] < |all| && K <= |all[picks[j]].shares|
    ensures |r| == K && forall k :: 0 <= k < K ==> r[k] == Reconstructed(t, PRIME, ChunkShares(all, picks, k))
  {
    seq(K, k requires 0 <= k < K => Reconstructed(t, PRIME, ChunkShares(all, picks, k)))
  }

  /** What `reconstructPrivateKey` computes: no key for fewer ids than the
      threshold (counted before ids outside 1..n are dropped), otherwise
      the chunk count of the first bundle decides how many chunks are
      reconstructed from the parties the ids name. */
  function Reconstruction(all: seq<PartyShares>, ids: seq<u64>, n: u64, t: u64): (r: Result<int, KeyError>)
    requires 0 < |all| && n as int <= |all| && forall i :: 0 <= i < |all| ==> |all[i].shares| == |all[0].shares|
    ensures r == Err(TooFewParties) <==> |ids| < t as int
    ensures r.Err? && |ids| >= t as int ==> r.error.SharingFailed?
  {
    if |ids| < t as int then Err(TooFewParties)
    else match Collect(ChunkResults(all, Selected(ids, n), t, |all[0].shares|))
      case Err(e) => Err(SharingFailed(e))
      case Ok(chunks) => Ok(FromChunks(chunks))
  }

  /** Ids that name no party are ignored, provided the list is long
      enough without them. */
  lemma OutOfRangeIdIgnored(all: seq<PartyShares>, a: seq<u64>, x: u64, b: seq<u64>, n: u64, t: u64)
    requires 0 < |all| && n as int <= |all| && forall i :: 0 <= i < |all| ==> |all[i].shares| == |all[0].shares|
    requires x == 0 || x > n
    requires |a + b| >= t as int
    ensures Reconstruction(all, a + [x] + b, n, t) == Reconstruction(all, a + b, n, t)
  {
    SelectedIgnoresOutOfRange(a, x, b, n);
  }

  /** Any t or more distinct picked parties recover a dealt chunk below
      the prime. */
  lemma PickedChunkRecovers(all: seq<PartyShares>, chunks: seq<u64>, polys: seq<seq<u64>>, picks: seq<nat>, n: u64, t: u64, k: nat)
    requires Prime(PRIME) && 2 <= t <= n < PRIME
    requires Shaped(all, n as nat, |chunks|)
    requires Dealt(ShareRows(all), chunks, polys, t as nat, n as nat, PRIME)
    requires |picks| >= t as int && DistinctPicks(picks, n as nat)
    requires k < |chunks| && chunks[k] < PRIME
    ensures Reconstructed(t, PRIME, ChunkShares(all, picks, k)) == Ok(chunks[k])
  {
    assert ChunkShares(all, picks, k) == Column(Pick(ShareRows(all), picks), k);
    ColumnRecovers(ShareRows(all), chunks, polys, t, n, PRIME, picks, k);
  }

  /** The tool's promise: after a successful split, any t or more distinct
      ids in 1..n give back the exponent. */
  lemma SplitThenReconstruct(all: seq<PartyShares>, d: nat, polys: seq<seq<u64>>, ids: seq<u64>, n: u64, t: u64)
    requires Prime(PRIME) && 2 <= t <= n < PRIME
    requires Shaped(all, n as nat, |SplitChunks(d)|)
    requires Dealt(ShareRows(all), SplitChunks(d), polys, t as nat, n as nat, PRIME)
    requires PRIME !in SplitChunks(d)
    requires |ids| >= t as int && forall j :: 0 <= j < |ids| ==> 0 < ids[j] <= n
    requires forall a, b :: 0 <= a < b < |ids| ==> ids[a] != ids[b]
    ensures Reconstruction(all, ids, n, t) == Ok(d)
  {
    var chunks := SplitChunks(d);
    var picks := Selected(ids, n);
    SelectedInRange(ids, n);
    assert DistinctPicks(picks, n as nat);
    var results := ChunkResults(all, picks, t, |chunks|);
    forall k | 0 <= k < |chunks|
      ensures results[k] == Ok(chunks[k])
    {
      PickedChunkRecovers(all, chunks, polys, picks, n, t, k);
    }
    CollectValues(results, chunks);
    ChunksRoundTrip(d);
  }

  /** `main`'s simulation: five parties, threshold three, parties 1, 3
      and 5 reconstruct the exponent. */
  lemma SimulationRecovers(all: seq<PartyShares>, d: nat, polys: seq<seq<u64>>)
    requires Prime(PRIME)
    requires Shaped(all, 5, |SplitChunks(d)|) && Dealt(ShareRows(all), SplitChunks(d), polys, 3, 5, PRIME)
    requires PRIME !in SplitChunks(d)
    ensures Reconstruction(all, [1, 3, 5], 5, 3) == Ok(d)
  {
    SplitThenReconstruct(all, d, polys, [1, 3, 5], 5, 3);
  }

  // ---------------------------------------------------------------------
  // The share files.
  // ---------------------------------------------------------------------

  /** What `saveShares` writes for one party: the share count as a
      `size_t`, then an (id, value) pair per share. */
  function SharesFile(shares: seq<Share>): (r: seq<byte>)
    requires |shares| < TWO64
    ensures |r| == 8 + 16 * |shares|
  {
    Word(|shares|) + Rsyslog.EncodeShares(shares)
  }

  /** Reading such a file: the count, then that many pairs. */
  function ReadSharesFile(file: seq<byte>): Option<seq<Share>>
  {
    match ReadWord(file, 0)
    case None => None
    case Some(count) => Rsyslog.DecodeShares(file, 8, count as nat)
  }

  lemma SharesFileRoundTrip(shares: seq<Share>, rest: seq<byte>)
    requires |shares| < TWO64
    ensures ReadSharesFile(SharesFile(shares) + rest) == Some(shares)
  {
    var count: u64 := |shares|;
    var file := SharesFile(shares) + rest;
    assert file == [] + Word(count) + (Rsyslog.EncodeShares(shares) + rest);
    ReadWordAt([], count, Rsyslog.EncodeShares(shares) + rest);
    assert file == Word(count) + Rsyslog.EncodeShares(shares) + rest;
    Rsyslog.DecodeSharesOfEncoded(Word(count), shares, rest);
  }

  // ---------------------------------------------------------------------
  // File names.
  // ---------------------------------------------------------------------

  const PEM: string := ".pem"

  /** ".pem" starts at position i of s. */
  predicate PemAt(s: string, i: int)
  {
    0 <= i && i + 4 <= |s| && s[i..i + 4] == PEM
  }

  /** `rfind(".pem")` among the start positions 0..i. */
  function LastPemFrom(s: string, i: int): (r: Option<nat>)
    requires i + 4 <= |s|
    ensures r.Some? ==> r.value <= i && PemAt(s, r.value)
    ensures forall j :: (if r.Some? then r.value else -1) < j <= i ==> !PemAt(s, j)
    decreases i + 1
  {
    if i < 0 then None
    else if s[i..i + 4] == PEM then Some(i)
    else LastPemFrom(s, i - 1)
  }

  /** `rfind(".pem")`: where the last ".pem" starts, if anywhere. */
  function LastPem(s: string): (r: Option<nat>)
    ensures r.Some? ==> PemAt(s, r.value)
    ensures forall j :: (if r.Some? then r.value else -1) < j <= |s| - 4 ==> !PemAt(s, j)
  {
    LastPemFrom(s, |s| - 4)
  }

  /** The public-key file name: the last ".pem" becomes "-public.pem",
      or ".pub" is appended when there is none. */
  function PublicKeyFileName(filename: string): string
  {
    match LastPem(filename)
    case Some(i) => filename[..i] + "-public.pem" + filename[i + 4..]
    case None => filename + ".pub"
  }

  /** The share-file prefix: the output name cut at its last ".pem". */
  function SharePrefix(filename: string): (r: string)
    ensures r <= filename
  {
    match LastPem(filename)
    case Some(i) => filename[..i]
    case None => filename
  }

  /** `main` announces the public key as prefix + "-public.pem"; that is
      the file actually written exactly when the output name ends in
      ".pem". */
  lemma AnnouncedPublicName(filename: string)
    ensures PublicKeyFileName(filename) == SharePrefix(filename) + "-public.pem"
        <==> PemAt(filename, |filename| - 4)
  {
    var n := |filename|;
    match LastPem(filename)
    case Some(i) =>
      if i + 4 == n {
        assert filename[i + 4..] == [];
      } else {
        assert |PublicKeyFileName(filename)| == i + 11 + (n - i - 4);
      }
    case None =>
      assert |PublicKeyFileName(filename)| == n + 4;
  }

  // ---------------------------------------------------------------------
  // The generator.
  // ---------------------------------------------------------------------

  class MultiPartyKeyGenerator {
    const numParties: u64
    const threshold: u64
    const sss: ShamirSecretSharing
    var allPartyShares: seq<PartyShares>

    ghost predicate Valid()
    {
      sss.Valid() && sss.threshold == threshold && sss.numShares == numParties && sss.prime == PRIME
    }

    /** The bundles hold one entry per party, ids 1..n, all of one length. */
    ghost predicate Ready()
      reads this
    {
      0 < |allPartyShares| && Shaped(allPartyShares, numParties as nat, |allPartyShares[0].shares|)
    }

    constructor (n: u64, t: u64)
      requires ParameterError(t, n, PRIME) == None
      ensures Valid() && numParties == n && threshold == t && allPartyShares == []
    {
      numParties := n;
      threshold := t;
      sss := new ShamirSecretSharing(t, n, PRIME);
      allPartyShares := [];
    }

    /** `main`'s check of its arguments, then the constructor, which
        throws on the parameters the scheme refuses. */
    static method Setup(n: u64, t: u64) returns (r: Result<MultiPartyKeyGenerator, KeyError>)
      ensures r.Ok? <==> 2 <= t <= n
      ensures r.Err? ==> r.error == if t > n then ThresholdAboveParties else BadParameters(ThresholdBelowTwo)
      ensures r.Ok? ==> fresh(r.value) && r.value.Valid() && r.value.allPartyShares == []
      ensures r.Ok? ==> r.value.numParties == n && r.value.threshold == t
    {
      if t > n {
        return Err(ThresholdAboveParties);
      }
      var e := ParameterError(t, n, PRIME);
      if e.Some? {
        return Err(BadParameters(e.value));
      }
      var g := new MultiPartyKeyGenerator(n, t);
      return Ok(g);
    }

    /** The inner loop of `splitPrivateKey`: party p receives share p + 1
        of the current chunk. */
    method DistributeChunk(shares: seq<Share>)
      requires |allPartyShares| <= |shares|
      modifies this
      ensures |allPartyShares| == |old(allPartyShares)|
      ensures forall i :: 0 <= i < |allPartyShares| ==>
        allPartyShares[i] == old(allPartyShares)[i].(shares := old(allPartyShares)[i].shares + [shares[i]])
    {
      ghost var before := allPartyShares;
      for p := 0 to |allPartyShares|
        invariant |allPartyShares| == |before|
        invariant forall i :: 0 <= i < p ==> allPartyShares[i] == before[i].(shares := before[i].shares + [shares[i]])
        invariant forall i :: p <= i < |before| ==> allPartyShares[i] == before[i]
      {
        allPartyShares := allPartyShares[p := allPartyShares[p].(shares := allPartyShares[p].shares + [shares[p]])];
      }
    }

    /** One round of `splitPrivateKey`: the chunk is split and its shares
        handed out, or `split` refuses it and nothing changes. */
    method ShareChunk(chunkValue: u64, ghost chunks: seq<u64>, ghost polys: seq<seq<u64>>)
      returns (r: Result<(), SharingError>, ghost poly: seq<u64>)
      requires Valid() && Shaped(allPartyShares, numParties as nat, |chunks|)
      requires Dealt(ShareRows(allPartyShares), chunks, polys, threshold as nat, numParties as nat, PRIME)
      modifies this
      ensures r.Err? <==> chunkValue >= PRIME
      ensures r.Err? ==> r.error == SecretNotBelowPrime && allPartyShares == old(allPartyShares)
      ensures r.Ok? ==> Shaped(allPartyShares, numParties as nat, |chunks| + 1)
      ensures r.Ok? ==> Dealt(ShareRows(allPartyShares), chunks + [chunkValue], polys + [poly], threshold as nat, numParties as nat, PRIME)
    {
      var shares;
      shares, poly := sss.Split(chunkValue);
      if shares.Err? {
        return Err(shares.error), poly;
      }
      ghost var rows := ShareRows(allPartyShares);
      DealtExtend(rows, chunks, polys, threshold as nat, numParties as nat, PRIME, shares.value, chunkValue, poly);
      DistributeChunk(shares.value);
      assert ShareRows(allPartyShares) == Append(rows, shares.value);
      return Ok(()), poly;
    }

    /** `splitPrivateKey` on the exponent d: the bundles are reset to ids
        1..n, then every masked chunk is split and handed out, one share
        per party; `split` throws on a chunk equal to the prime. */
    method SplitPrivateKey(d: nat) returns (r: Result<(), SharingError>, ghost polys: seq<seq<u64>>)
      requires Valid()
      modifies this
      ensures Ready()
      ensures r.Err? <==> PRIME in SplitChunks(d)
      ensures r.Err? ==> r.error == SecretNotBelowPrime
      ensures r.Ok? ==> Shaped(allPartyShares, numParties as nat, |SplitChunks(d)|)
      ensures r.Ok? ==> Dealt(ShareRows(allPartyShares), SplitChunks(d), polys, threshold as nat, numParties as nat, PRIME)
    {
      var dBits := Bits(d);
      var numChunks := (dBits + CHUNK_BITS - 1) / CHUNK_BITS;
      ghost var chunks := SplitChunks(d);
      allPartyShares := [];
      for p := 0 to numParties
        invariant |allPartyShares| == p as int
        invariant forall i :: 0 <= i < p ==> allPartyShares[i] == PartyShares(i as u64 + 1, [])
      {
        allPartyShares := allPartyShares + [PartyShares(p + 1, [])];
      }
      polys := [];
      for chunkId := 0 to numChunks
        invariant Shaped(allPartyShares, numParties as nat, chunkId)
        invariant Dealt(ShareRows(allPartyShares), chunks[..chunkId], polys, threshold as nat, numParties as nat, PRIME)
        invariant PRIME !in chunks[..chunkId]
      {
        var chunkValue := (d / Shift(chunkId)) % CHUNK_BASE;
        assert chunkValue == chunks[chunkId];
        var shared, poly := ShareChunk(chunkValue, chunks[..chunkId], polys);
        if shared.Err? {
          return shared, polys;
        }
        assert chunks[..chunkId + 1] == chunks[..chunkId] + [chunkValue];
        polys := polys + [poly];
      }
      assert chunks[..numChunks] == chunks;
      return Ok(()), polys;
    }

    /** The inner loop of `reconstructPrivateKey`: the k-th share of every
        party the ids name, in list order. */
    method GatherChunkShares(partyIds: seq<u64>, chunkId: nat) returns (chunkShares: seq<Share>)
      requires Ready() && chunkId < |allPartyShares[0].shares|
      ensures chunkShares == ChunkShares(allPartyShares, Selected(partyIds, numParties), chunkId)
    {
      chunkShares := [];
      for j := 0 to |partyIds|
        invariant chunkShares == ChunkShares(allPartyShares, Selected(partyIds[..j], numParties), chunkId)
      {
        var partyId := partyIds[j];
        ghost var picks := Selected(partyIds[..j], numParties);
        assert partyIds[..j + 1][..j] == partyIds[..j];
        if 0 < partyId <= numParties {
          ChunkSharesSnoc(allPartyShares, picks, [partyId as nat - 1], chunkId);
          chunkShares := chunkShares + [allPartyShares[partyId - 1].shares[chunkId]];
        } else {
          ChunkSharesSnoc(allPartyShares, picks, [], chunkId);
          assert picks + [] == picks;
        }
      }
      assert partyIds[..|partyIds|] == partyIds;
    }

    /** One round of `reconstructPrivateKey`: chunk `chunkId` is
        reconstructed from the shares the ids name. */
    method ReconstructChunk(partyIds: seq<u64>, chunkId: nat) returns (v: Result<u64, SharingError>)
      requires Valid() && Ready() && chunkId < |allPartyShares[0].shares|
      ensures v == Reconstructed(threshold, PRIME, ChunkShares(allPartyShares, Selected(partyIds, numParties), chunkId))
    {
      var chunkShares := GatherChunkShares(partyIds, chunkId);
      v := sss.Reconstruct(chunkShares);
    }

    /** `reconstructPrivateKey`, up to the reassembled exponent. */
    method ReconstructPrivateKey(partyIds: seq<u64>) returns (r: Result<int, KeyError>)
      requires Valid() && Ready()
      ensures r == Reconstruction(allPartyShares, partyIds, numParties, threshold)
    {
      if |partyIds| < threshold as int {
        return Err(TooFewParties);
      }
      var numChunks := |allPartyShares[0].shares|;
      ghost var results := ChunkResults(allPartyShares, Selected(partyIds, numParties), threshold, numChunks);
      ghost var chunks: seq<u64> := [];
      var d: nat := 0;
      for chunkId := 0 to numChunks
        invariant Collect(results[..chunkId]) == Ok(chunks) && d == FromChunks(chunks)
      {
        var chunkValue := ReconstructChunk(partyIds, chunkId);
        CollectStep(results, chunkId, chunks);
        if chunkValue.Err? {
          return Err(SharingFailed(chunkValue.error));
        }
        d := d + Weighted(chunkValue.value, chunkId);
        chunks := chunks + [chunkValue.value];
      }
      assert results[..numChunks] == results;
      return Ok(d);
    }

    /** `saveShares`: party p's file holds its share count and its shares;
        a file that cannot be created is skipped. */
    method SaveShares(creatable: seq<bool>) returns (files: seq<Option<seq<byte>>>)
      requires Ready() && |creatable| == numParties as int
      requires |allPartyShares[0].shares| < TWO64
      ensures |files| == numParties as int
      ensures forall p :: 0 <= p < |files| ==>
        files[p] == if creatable[p] then Some(SharesFile(allPartyShares[p].shares)) else None
    {
      files := [];
      for p := 0 to numParties
        invariant |files| == p as int
        invariant forall q :: 0 <= q < p ==>
          files[q] == if creatable[q] then Some(SharesFile(allPartyShares[q].shares)) else None
      {
        if !creatable[p] {
          files := files + [None];
          continue;
        }
        var shares := allPartyShares[p].shares;
        var file := Word(|shares|);
        for k := 0 to |shares|
          invariant file == Word(|shares|) + Rsyslog.EncodeShares(shares[..k])
        {
          assert shares[..k + 1][..k] == shares[..k];
          file := file + Word(shares[k].id) + Word(shares[k].value);
        }
        assert shares[..|shares|] == shares;
        files := files + [Some(file)];
      }
    }
  }
}

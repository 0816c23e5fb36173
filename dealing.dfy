/** What every driver does around the chunk codec: each chunk is split
    with its own polynomial, and party i keeps share i + 1 of every
    chunk, in chunk order. Any t distinct parties then hold, chunk by
    chunk, t distinct shares of that chunk. */
module Dealing {
  import opened Results
  import opened Field
  import opened Fermat
  import opened Poly
  import opened Lagrange
  import opened Shamir

  /** rows[i] is party i's share list: for every chunk k, the share at
      x = i + 1 of the polynomial polys[k] that `split` drew for chunk k. */
  ghost predicate Dealt(rows: seq<seq<Share>>, chunks: seq<u64>, polys: seq<seq<u64>>, t: nat, n: nat, p: u64)
    requires p >= 2
  {
    |rows| == n && |polys| == |chunks|
    && (forall k :: 0 <= k < |chunks| ==> IsSharingPolynomial(polys[k], chunks[k], t, p))
    && (forall i :: 0 <= i < n ==> |rows[i]| == |chunks|)
    && (forall i, k {:trigger rows[i][k]} :: 0 <= i < n && 0 <= k < |chunks| ==>
          rows[i][k].id == i + 1 && rows[i][k].value == Eval(polys[k], i + 1) % p)
  }

  /** The k-th share of every row: the shares gathered for chunk k. */
  function Column(rows: seq<seq<Share>>, k: nat): (r: seq<Share>)
    requires forall i :: 0 <= i < |rows| ==> k < |rows[i]|
    ensures |r| == |rows| && forall i :: 0 <= i < |rows| ==> r[i] == rows[i][k]
  {
    seq(|rows|, i requires 0 <= i < |rows| => rows[i][k])
  }

  predicate DistinctPicks(picks: seq<nat>, n: nat)
  {
    (forall j :: 0 <= j < |picks| ==> picks[j] < n)
    && forall a, b :: 0 <= a < b < |picks| ==> picks[a] != picks[b]
  }

  /** Any t or more distinct parties recover every chunk below the prime
      (for a prime of at most 2^63, as the dealers' 61-bit prime is). */
  lemma ColumnRecovers(rows: seq<seq<Share>>, chunks: seq<u64>, polys: seq<seq<u64>>,
                       t: u64, n: u64, p: u64, picks: seq<nat>, k: nat)
    requires Prime(p) && 2 <= t <= n < p <= TWO64 / 2
    requires Dealt(rows, chunks, polys, t, n, p)
    requires |picks| >= t && DistinctPicks(picks, n)
    requires k < |chunks| && chunks[k] < p
    ensures Reconstructed(t, p, Column(Pick(rows, picks), k)) == Ok(chunks[k])
  {
    var all := Column(rows, k);
    assert AreSharesOf(all, polys[k], n, p);
    assert Column(Pick(rows, picks), k) == Pick(all, picks);
    ReconstructRecoversSecret(t, n, p, polys[k], chunks[k], all, picks);
  }

  /** Each row with one more share at the end. */
  function Append(rows: seq<seq<Share>>, shares: seq<Share>): (r: seq<seq<Share>>)
    requires |shares| >= |rows|
    ensures |r| == |rows| && forall i :: 0 <= i < |rows| ==> r[i] == rows[i] + [shares[i]]
  {
    seq(|rows|, i requires 0 <= i < |rows| => rows[i] + [shares[i]])
  }

  /** One entry of the extended rows: an old chunk's share keeps agreeing
      with that chunk's polynomial, the new chunk's share with the new one. */
  lemma AppendEntry(rows: seq<seq<Share>>, polys: seq<seq<u64>>, p: u64, shares: seq<Share>, poly: seq<u64>, i: nat, k: nat)
    requires p >= 2 && |shares| >= |rows| && i < |rows| && |rows[i]| == |polys| && k <= |polys|
    requires k < |polys| ==> rows[i][k].id == i + 1 && rows[i][k].value == Eval(polys[k], i + 1) % p
    requires k == |polys| ==> shares[i].id == i + 1 && shares[i].value == Eval(poly, i + 1) % p
    ensures Append(rows, shares)[i][k].id == i + 1
    ensures Append(rows, shares)[i][k].value == Eval((polys + [poly])[k], i + 1) % p
  {
    var row := Append(rows, shares)[i];
    assert row == rows[i] + [shares[i]];
    var polys' := polys + [poly];
    if k < |polys| {
      assert row[k] == rows[i][k] && polys'[k] == polys[k];
    } else {
      assert row[k] == shares[i] && polys'[k] == poly;
    }
  }

  /** The shares of the old chunks and of the new one agree with their
      polynomials in the extended rows. */
  lemma AppendAgrees(rows: seq<seq<Share>>, polys: seq<seq<u64>>, n: nat, p: u64, shares: seq<Share>, poly: seq<u64>)
    requires p >= 2 && |rows| == n && AreSharesOf(shares, poly, n, p)
    requires forall i :: 0 <= i < n ==> |rows[i]| == |polys|
    requires forall i, k {:trigger rows[i][k]} :: 0 <= i < n && 0 <= k < |polys| ==>
      rows[i][k].id == i + 1 && rows[i][k].value == Eval(polys[k], i + 1) % p
    ensures forall i, k {:trigger Append(rows, shares)[i][k]} :: 0 <= i < n && 0 <= k < |polys| + 1 ==>
      Append(rows, shares)[i][k].id == i + 1 && Append(rows, shares)[i][k].value == Eval((polys + [poly])[k], i + 1) % p
  {
    forall i, k | 0 <= i < n && 0 <= k < |polys| + 1
      ensures Append(rows, shares)[i][k].id == i + 1
      ensures Append(rows, shares)[i][k].value == Eval((polys + [poly])[k], i + 1) % p
    {
      AppendEntry(rows, polys, p, shares, poly, i, k);
    }
  }

  /** Handing out the shares of one more chunk keeps the rows dealt. */
  lemma DealtExtend(rows: seq<seq<Share>>, chunks: seq<u64>, polys: seq<seq<u64>>, t: nat, n: nat, p: u64,
                    shares: seq<Share>, chunk: u64, poly: seq<u64>)
    requires p >= 2 && Dealt(rows, chunks, polys, t, n, p)
    requires IsSharingPolynomial(poly, chunk, t, p) && AreSharesOf(shares, poly, n, p)
    ensures Dealt(Append(rows, shares), chunks + [chunk], polys + [poly], t, n, p)
  {
    var rows' := Append(rows, shares);
    var chunks' := chunks + [chunk];
    var polys' := polys + [poly];
    var m := |chunks|;
    forall i | 0 <= i < n
      ensures |rows'[i]| == m + 1
    {
      assert rows'[i] == rows[i] + [shares[i]];
    }
    forall k | 0 <= k < m + 1
      ensures IsSharingPolynomial(polys'[k], chunks'[k], t, p)
    {
      if k < m {
        assert polys'[k] == polys[k] && chunks'[k] == chunks[k];
      } else {
        assert polys'[k] == poly && chunks'[k] == chunk;
      }
    }
    AppendAgrees(rows, polys, n, p, shares, poly);
  }

  /** The per-chunk share lists turned into per-party rows: row i holds
      share i of every chunk, in chunk order. */
  function Transposed(all: seq<seq<Share>>, n: nat): (r: seq<seq<Share>>)
    requires forall k :: 0 <= k < |all| ==> n <= |all[k]|
    ensures |r| == n
    ensures forall i :: 0 <= i < n ==> |r[i]| == |all|
    ensures forall i, k {:trigger r[i][k]} :: 0 <= i < n && 0 <= k < |all| ==> r[i][k] == all[k][i]
  {
    seq(n, i requires 0 <= i < n => seq(|all|, k requires 0 <= k < |all| => all[k][i]))
  }

  /** Handing out, party by party, the shares `split` produced chunk by
      chunk yields dealt rows. */
  lemma TransposedDealt(all: seq<seq<Share>>, chunks: seq<u64>, polys: seq<seq<u64>>, t: nat, n: nat, p: u64)
    requires p >= 2 && |all| == |chunks| == |polys|
    requires forall k :: 0 <= k < |chunks| ==>
      IsSharingPolynomial(polys[k], chunks[k], t, p) && AreSharesOf(all[k], polys[k], n, p)
    ensures forall k :: 0 <= k < |all| ==> n <= |all[k]|
    ensures Dealt(Transposed(all, n), chunks, polys, t, n, p)
  {
    var rows: seq<seq<Share>> := Transposed(all, n);
    forall i, k | 0 <= i < n && 0 <= k < |chunks|
      ensures rows[i][k].id == i + 1 && rows[i][k].value == Eval(polys[k], i + 1) % p
    {
      assert rows[i][k] == all[k][i];
    }
  }
}

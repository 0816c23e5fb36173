/** What `lagrange_interpolate` computes, step for step in field
    arithmetic, and why it is f(0) when the shares are points of f. */
module Lagrange {
  import opened Results
  import opened Field
  import opened Fermat
  import opened Poly

  /** A share: the x-coordinate (party identifier) and the y-coordinate. */
  datatype Share = Share(id: u64, value: u64)

  function Ids(shares: seq<Share>): (r: seq<u64>)
    ensures |r| == |shares| && forall i :: 0 <= i < |shares| ==> r[i] == shares[i].id
  {
    seq(|shares|, i requires 0 <= i < |shares| => shares[i].id)
  }

  function Values(shares: seq<Share>): (r: seq<u64>)
    ensures |r| == |shares| && forall i :: 0 <= i < |shares| ==> r[i] == shares[i].value
  {
    seq(|shares|, i requires 0 <= i < |shares| => shares[i].value)
  }

  /** The numerator of L_i(0) after the inner loop has seen j < m: the
      product of (0 - x_j) for j != i. */
  function Numerator(p: u64, ids: seq<u64>, i: nat, m: nat): u64
    requires p >= 2 && m <= |ids|
  {
    if m == 0 then 1
    else if m - 1 == i then Numerator(p, ids, i, m - 1)
    else ModMul(p, Numerator(p, ids, i, m - 1), ModSub(p, 0, ids[m - 1]))
  }

  /** The denominator of L_i(0) after the inner loop has seen j < m: the
      product of (x_i - x_j) for j != i. */
  function Denominator(p: u64, ids: seq<u64>, i: nat, m: nat): u64
    requires p >= 2 && m <= |ids| && i < |ids|
  {
    if m == 0 then 1
    else if m - 1 == i then Denominator(p, ids, i, m - 1)
    else ModMul(p, Denominator(p, ids, i, m - 1), ModSub(p, ids[i], ids[m - 1]))
  }

  /** The term y_i * L_i(0) that round i adds to the secret, or the error of
      `mod_inv` when the denominator is 0. */
  function Term(p: u64, shares: seq<Share>, i: nat): Result<u64, FieldError>
    requires p >= 2 && i < |shares|
  {
    var ids := Ids(shares);
    var den := Denominator(p, ids, i, |ids|);
    if den == 0 then Err(ZeroHasNoInverse)
    else Ok(ModMul(p, shares[i].value, ModMul(p, Numerator(p, ids, i, |ids|), Inv(p, den))))
  }

  /** The secret accumulated after the outer loop has handled i < k, summed
      with `mod_add` as the source computes it (wrapping at 2^64). */
  function Accumulated(p: u64, shares: seq<Share>, k: nat): Result<u64, FieldError>
    requires p >= 2 && k <= |shares|
  {
    if k == 0 then Ok(0)
    else match Accumulated(p, shares, k - 1)
      case Err(e) => Err(e)
      case Ok(s) =>
        match Term(p, shares, k - 1)
        case Err(e) => Err(e)
        case Ok(v) => Ok(ModAdd64(p, s, v))
  }

  /** `lagrange_interpolate` over the shares it is given (the caller has
      already cut them down to the first `threshold`). */
  function Interpolate(p: u64, shares: seq<Share>): Result<u64, FieldError>
    requires p >= 2
  {
    Accumulated(p, shares, |shares|)
  }

  // ---------------------------------------------------------------------
  // Correctness.
  // ---------------------------------------------------------------------

  /** One step of a product accumulated with `mod_mul`. */
  lemma ProductStep(p: int, acc: int, a: int, f: int, g: int)
    requires p > 0 && acc == a % p && g == f % p
    ensures (acc * g) % p == (a * f) % p
  {
    MulMod(a, f, p);
  }

  lemma {:induction false} NumeratorIsProduct(p: u64, ids: seq<u64>, i: nat, m: nat)
    requires p >= 2 && m <= |ids|
    ensures Numerator(p, ids, i, m) == ProdExcept(ids, i, m, 0) % p
    decreases m
  {
    if m == 0 {
      DivModUnique(1, p, 0, 1);
    } else if m - 1 != i {
      NumeratorIsProduct(p, ids, i, m - 1);
      var acc, f := Numerator(p, ids, i, m - 1), ModSub(p, 0, ids[m - 1]);
      assert Numerator(p, ids, i, m) == (acc * f) % p;
      ProductStep(p, acc, ProdExcept(ids, i, m - 1, 0), 0 - ids[m - 1] as int, f);
    } else {
      NumeratorIsProduct(p, ids, i, m - 1);
    }
  }

  lemma {:induction false} DenominatorIsProduct(p: u64, ids: seq<u64>, i: nat, m: nat)
    requires p >= 2 && m <= |ids| && i < |ids|
    ensures Denominator(p, ids, i, m) == ProdExcept(ids, i, m, ids[i]) % p
    decreases m
  {
    if m == 0 {
      DivModUnique(1, p, 0, 1);
    } else if m - 1 != i {
      DenominatorIsProduct(p, ids, i, m - 1);
      var acc, f := Denominator(p, ids, i, m - 1), ModSub(p, ids[i], ids[m - 1]);
      assert Denominator(p, ids, i, m) == (acc * f) % p;
      ProductStep(p, acc, ProdExcept(ids, i, m - 1, ids[i]), ids[i] as int - ids[m - 1] as int, f);
    } else {
      DenominatorIsProduct(p, ids, i, m - 1);
    }
  }

  lemma Rearrange(y: int, q: int, v: int)
    ensures y * (q * v) == (y * v) * q && y * (v * q) == (y * v) * q
  {
  }

  /** The Lagrange weight of share i: y_i times the inverse of its
      denominator. */
  function Weights(p: u64, shares: seq<Share>): (ws: seq<int>)
    requires p >= 2
    ensures |ws| == |shares|
  {
    var ids := Ids(shares);
    seq(|shares|, i requires 0 <= i < |shares| => shares[i].value * Inv(p, Denominator(p, ids, i, |ids|)))
  }

  /** With pairwise distinct identifiers, round i adds y_i * L_i(0), the
      i-th Lagrange term at 0, reduced modulo p. */
  lemma TermIsWeighted(p: u64, shares: seq<Share>, i: nat)
    requires Prime(p) && DistinctMod(p, Ids(shares)) && i < |shares|
    ensures Term(p, shares, i) == Ok((Weights(p, shares)[i] * ProdExcept(Ids(shares), i, |shares|, 0)) % p)
  {
    var ids, ws := Ids(shares), Weights(p, shares);
    var den := Denominator(p, ids, i, |ids|);
    var num := Numerator(p, ids, i, |ids|);
    var q := ProdExcept(ids, i, |ids|, 0);
    DenominatorIsProduct(p, ids, i, |ids|);
    NumeratorIsProduct(p, ids, i, |ids|);
    ProdExceptUnit(p, ids, i, |ids|);
    assert den != 0;
    var inv := Inv(p, den);
    var y := shares[i].value;
    var coeff := ModMul(p, num, inv);
    assert Term(p, shares, i) == Ok(ModMul(p, y, coeff));
    ModMod(q, p);
    ModMod(inv, p);
    MulCongruent(num, inv, q, inv, p);
    ModMod(num * inv, p);
    MulCongruent(y, coeff, y, q * inv, p);
    assert ws[i] == y * inv;
    Rearrange(y, q, inv);
  }

  /** With pairwise distinct identifiers and a prime up to 2^63 (so that
      `mod_add` cannot wrap), every round succeeds and the running sum is
      the Lagrange sum over the shares seen so far. */
  lemma {:induction false} AccumulatedIsWeightedSum(p: u64, shares: seq<Share>, k: nat)
    requires Prime(p) && p <= TWO64 / 2 && DistinctMod(p, Ids(shares)) && k <= |shares|
    ensures Accumulated(p, shares, k) == Ok(WeightedSum(Ids(shares), Weights(p, shares), k, 0) % p)
    decreases k
  {
    var ids, ws := Ids(shares), Weights(p, shares);
    if k == 0 {
      DivModUnique(0, p, 0, 0);
    } else {
      var i := k - 1;
      AccumulatedIsWeightedSum(p, shares, i);
      var s := WeightedSum(ids, ws, i, 0);
      var t := ws[i] * ProdExcept(ids, i, |ids|, 0);
      TermIsWeighted(p, shares, i);
      ModAdd64Agrees(p, Accumulated(p, shares, i).value, Term(p, shares, i).value);
      assert WeightedSum(ids, ws, k, 0) == s + t;
      ModMod(s, p);
      ModMod(t, p);
      AddMod(s, t, p);
    }
  }

  /** Lagrange interpolation recovers f(0): if the shares lie on a
      polynomial f with at most as many coefficients as there are shares,
      their identifiers are distinct modulo the prime, and the prime is at
      most 2^63, `lagrange_interpolate` returns f(0) mod p. */
  lemma InterpolateRecoversConstant(p: u64, shares: seq<Share>, c: seq<int>)
    requires Prime(p) && p <= TWO64 / 2 && DistinctMod(p, Ids(shares)) && |c| <= |shares|
    requires forall k :: 0 <= k < |shares| ==> shares[k].value == Eval(c, shares[k].id) % p
    ensures Interpolate(p, shares) == Ok(Eval(c, 0) % p)
  {
    var ids, ws := Ids(shares), Weights(p, shares);
    AccumulatedIsWeightedSum(p, shares, |shares|);
    forall k | 0 <= k < |ids| ensures (ws[k] * ProdExcept(ids, k, |ids|, ids[k])) % p == Eval(c, ids[k]) % p {
      WeightTimesDenominator(p, shares, k);
      ModMod(Eval(c, ids[k]), p);
    }
    LagrangeAtZero(p, c, ids, ws);
  }

  /** Weight i times the full product of (x_i - x_j) is y_i modulo p. */
  lemma WeightTimesDenominator(p: u64, shares: seq<Share>, k: nat)
    requires Prime(p) && DistinctMod(p, Ids(shares)) && k < |shares|
    ensures (Weights(p, shares)[k] * ProdExcept(Ids(shares), k, |shares|, shares[k].id)) % p
         == shares[k].value % p
  {
    var ids := Ids(shares);
    var den := Denominator(p, ids, k, |ids|);
    var d := ProdExcept(ids, k, |ids|, ids[k]);
    var y := shares[k].value;
    var inv := Inv(p, den);
    DenominatorIsProduct(p, ids, k, |ids|);
    ProdExceptUnit(p, ids, k, |ids|);
    ModMod(d, p);
    InvIsInverse(p, den);
    MulCongruent(inv, d, inv, den, p);
    assert (inv * d) % p == 1;
    DivModUnique(1, p, 0, 1);
    MulCongruent(y, inv * d, y, 1, p);
    assert Weights(p, shares)[k] == y * inv;
    Rearrange(y, d, inv);
  }
}

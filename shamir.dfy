/** The `ShamirSecretSharing` class: a (t, n) threshold scheme over the
    field of integers modulo `prime`, with shares at x = 1, ..., n. */
module Shamir {
  import opened Results
  import opened Field
  import opened Fermat
  import opened Poly
  import opened Lagrange

  datatype SharingError =
    | ThresholdBelowTwo        // constructor: threshold < 2
    | SharesBelowThreshold     // constructor: num_shares < threshold
    | PrimeBelowTwo            // constructor: prime < 2
    | SecretNotBelowPrime      // split: secret >= prime
    | InsufficientShares       // reconstruct: fewer than threshold shares
    | DuplicateShareIds        // reconstruct: an id occurs twice
    | ZeroInverse              // reconstruct: mod_inv(0) inside interpolation

  /** The constructor's checks, in the order it makes them. */
  function ParameterError(threshold: u64, numShares: u64, prime: u64): (r: Option<SharingError>)
    ensures r == None <==> 2 <= threshold <= numShares && 2 <= prime
    ensures r == Some(ThresholdBelowTwo) <==> threshold < 2
    ensures r == Some(SharesBelowThreshold) <==> 2 <= threshold && numShares < threshold
    ensures r == Some(PrimeBelowTwo) <==> 2 <= threshold <= numShares && prime < 2
  {
    if threshold < 2 then Some(ThresholdBelowTwo)
    else if numShares < threshold then Some(SharesBelowThreshold)
    else if prime < 2 then Some(PrimeBelowTwo)
    else None
  }

  /** c is a polynomial `split` may draw for `secret`: t coefficients, the
      constant one the secret, the others in [1, p-1]. */
  ghost predicate IsSharingPolynomial(c: seq<u64>, secret: u64, t: nat, p: u64)
  {
    |c| == t && t >= 1 && c[0] == secret && forall i :: 1 <= i < t ==> 1 <= c[i] < p
  }

  /** shares are the n shares of polynomial c, in order: share k has id
      k + 1 (its x-coordinate) and value c(k + 1) mod p (its y-coordinate). */
  ghost predicate AreSharesOf(shares: seq<Share>, c: seq<u64>, n: nat, p: u64)
    requires p >= 2
  {
    |shares| == n && forall k :: 0 <= k < n ==> shares[k].id == k + 1 && shares[k].value == Eval(c, k + 1) % p
  }

  /** shares are what `split` hands out for polynomial c: share k has id
      k + 1 and the value `evaluate_polynomial` computes at k + 1. */
  ghost predicate AreSplitShares(shares: seq<Share>, c: seq<u64>, n: nat, p: u64)
    requires p >= 2
  {
    |shares| == n && forall k :: 0 <= k < n ==> shares[k].id == k + 1 && shares[k].value == Evaluated(p, c, k + 1)
  }

  /** x^i mod p, as `evaluate_polynomial` carries it in `x_power` after i
      rounds. */
  function PowerAfter(p: u64, x: u64, i: nat): (r: u64)
    requires p >= 2
    ensures r == Pow(x, i) % p
  {
    if i == 0 then DivModUnique(1, p, 0, 1); 1
    else
      var q := PowerAfter(p, x, i - 1);
      PowerStep(p, x, i - 1, q);
      ModMul(p, q, x)
  }

  /** The `result` of `evaluate_polynomial` after i rounds, each term added
      with `mod_add` as the source computes it (wrapping at 2^64). */
  function SumAfter(p: u64, c: seq<u64>, x: u64, i: nat): (r: u64)
    requires p >= 2 && i <= |c|
    ensures r < p
  {
    if i == 0 then 0
    else ModAdd64(p, SumAfter(p, c, x, i - 1), ModMul(p, c[i - 1], PowerAfter(p, x, i - 1)))
  }

  /** What `evaluate_polynomial(coefficients, x)` returns. */
  function Evaluated(p: u64, c: seq<u64>, x: int): u64
    requires p >= 2
  {
    SumAfter(p, c, (x % p) as u64, |c|)
  }

  /** While the prime is at most 2^63 no `mod_add` wraps, and the rounds
      sum the power series modulo p. */
  lemma {:induction false} SumAfterIsPowerSum(p: u64, c: seq<u64>, x: u64, i: nat)
    requires 2 <= p <= TWO64 / 2 && i <= |c|
    ensures SumAfter(p, c, x, i) == PowerSum(c, x, i) % p
    decreases i
  {
    if i == 0 {
      DivModUnique(0, p, 0, 0);
    } else {
      SumAfterIsPowerSum(p, c, x, i - 1);
      EvaluateStep(p, c, x, i - 1, SumAfter(p, c, x, i - 1), PowerAfter(p, x, i - 1));
    }
  }

  /** For a prime of at most 2^63, `evaluate_polynomial` computes f(x) mod p. */
  lemma EvaluatedIsEval(p: u64, c: seq<u64>, x: int)
    requires 2 <= p <= TWO64 / 2
    ensures Evaluated(p, c, x) == Eval(c, x) % p
  {
    var y := (x % p) as u64;
    SumAfterIsPowerSum(p, c, y, |c|);
    PowerSumIsEval(c, y);
    EvalMod(c, x, p);
  }

  /** Above 2^63 `mod_add` wraps: with the 64-bit prime of the Lagrange
      test, f = (p-1) + (p-1)x evaluated at 1 gives 2^64 - 120, which is
      not f(1) mod p = p - 2 (and not even below p). */
  lemma EvaluatedWraps()
    ensures var p := LAGRANGE_TEST_PRIME;
      Evaluated(p, [p - 1, p - 1], 1) == 18446744073709551496 != Eval([p - 1, p - 1], 1) % p == p - 2
  {
    var p := LAGRANGE_TEST_PRIME;
    var q: int := p - 1;
    var c: seq<u64> := [p - 1, p - 1];
    DivModUnique(1, p, 0, 1);
    WrappingRounds(c);
    assert c[1..] == [p - 1] && c[1..][1..] == [];
    assert Eval(c[1..][1..], 1) == 0;
    assert Eval(c[1..], 1) == q;
    assert Eval(c, 1) == q + q;
    ModAdd64Overflows();
  }

  /** The two rounds of `evaluate_polynomial` for the wrapping example. */
  lemma WrappingRounds(c: seq<u64>)
    requires c == [LAGRANGE_TEST_PRIME - 1, LAGRANGE_TEST_PRIME - 1]
    ensures SumAfter(LAGRANGE_TEST_PRIME, c, 1, 2) == 18446744073709551496
  {
    var p := LAGRANGE_TEST_PRIME;
    var one := PowerAfter(p, 1, 1);
    var t1 := ModMul(p, p - 1, one);
    assert one == 1 by {
      DivModUnique(1, p, 0, 1);
    }
    assert t1 == p - 1 by {
      DivModUnique(p - 1, p, 0, p - 1);
    }
    var s1 := SumAfter(p, c, 1, 1);
    assert s1 == p - 1 by {
      assert SumAfter(p, c, 1, 0) == 0 && PowerAfter(p, 1, 0) == 1 && c[0] == p - 1;
      assert s1 == ModAdd64(p, 0, ModMul(p, p - 1, 1));
      DivModUnique(1, p, 0, 1);
      DivModUnique(p - 1, p, 0, p - 1);
      DivModUnique(p - 1, TWO64, 0, p - 1);
    }
    assert SumAfter(p, c, 1, 2) == ModAdd64(p, s1, t1);
    ModAdd64Overflows();
  }

  /** Split shares are shares of the polynomial once no `mod_add` can wrap. */
  lemma SplitSharesAreSharesOf(shares: seq<Share>, c: seq<u64>, n: nat, p: u64)
    requires 2 <= p <= TWO64 / 2 && AreSplitShares(shares, c, n, p)
    ensures AreSharesOf(shares, c, n, p)
  {
    forall k | 0 <= k < n ensures shares[k].value == Eval(c, k + 1) % p {
      EvaluatedIsEval(p, c, k + 1);
    }
  }

  /** The first min(|shares|, t) shares: the ones interpolation uses. */
  function FirstShares(shares: seq<Share>, t: nat): (r: seq<Share>)
    ensures |r| == if |shares| < t then |shares| else t
    ensures forall k :: 0 <= k < |r| ==> r[k] == shares[k]
  {
    shares[..if |shares| < t then |shares| else t]
  }

  predicate DistinctIds(shares: seq<Share>)
  {
    forall i, j :: 0 <= i < j < |shares| ==> shares[i].id != shares[j].id
  }

  /** What `reconstruct` returns: the count check, the duplicate check over
      the whole list, then interpolation over the first `threshold` shares. */
  function Reconstructed(threshold: u64, prime: u64, shares: seq<Share>): (r: Result<u64, SharingError>)
    requires prime >= 2
    ensures r == Err(InsufficientShares) <==> |shares| < threshold
    ensures r == Err(DuplicateShareIds) <==> |shares| >= threshold && !DistinctIds(shares)
    ensures r.Ok? ==> r.value < prime
  {
    if |shares| < threshold then Err(InsufficientShares)
    else if !DistinctIds(shares) then Err(DuplicateShareIds)
    else match Interpolate(prime, FirstShares(shares, threshold))
      case Ok(v) => Ok(v)
      case Err(_) => Err(ZeroInverse)
  }

  class ShamirSecretSharing {
    const threshold: u64
    const numShares: u64
    const prime: u64

    ghost predicate Valid()
    {
      2 <= threshold <= numShares && 2 <= prime
    }

    constructor (threshold: u64, numShares: u64, prime: u64)
      requires ParameterError(threshold, numShares, prime) == None
      ensures Valid()
      ensures this.threshold == threshold && this.numShares == numShares && this.prime == prime
    {
      this.threshold := threshold;
      this.numShares := numShares;
      this.prime := prime;
    }

    /** The constructor together with the exceptions it throws. */
    static method Create(threshold: u64, numShares: u64, prime: u64)
      returns (r: Result<ShamirSecretSharing, SharingError>)
      ensures r.Err? <==> ParameterError(threshold, numShares, prime).Some?
      ensures r.Err? ==> Some(r.error) == ParameterError(threshold, numShares, prime)
      ensures r.Ok? ==> fresh(r.value) && r.value.Valid()
      ensures r.Ok? ==> r.value.GetThreshold() == threshold && r.value.GetNumShares() == numShares
      ensures r.Ok? ==> r.value.prime == prime
    {
      var e := ParameterError(threshold, numShares, prime);
      if e.Some? {
        return Err(e.value);
      }
      var s := new ShamirSecretSharing(threshold, numShares, prime);
      return Ok(s);
    }

    function GetThreshold(): u64 { threshold }

    function GetNumShares(): u64 { numShares }

    /** `evaluate_polynomial`: the sum of c[i] * x^i, accumulated term by
        term with the field operations; f(x) mod p whenever p <= 2^63. */
    method EvaluatePolynomial(coefficients: seq<u64>, x: u64) returns (r: u64)
      requires Valid()
      ensures r == Evaluated(prime, coefficients, x)
      ensures prime <= TWO64 / 2 ==> r == Eval(coefficients, x) % prime
    {
      var p := prime;
      var x': u64 := x % p;
      var result: u64 := 0;
      var xPower: u64 := 1;
      for i := 0 to |coefficients|
        invariant result == SumAfter(p, coefficients, x', i)
        invariant xPower == PowerAfter(p, x', i)
      {
        var term := ModMul(p, coefficients[i], xPower);
        result := ModAdd64(p, result, term);
        xPower := ModMul(p, xPower, x');
      }
      if p <= TWO64 / 2 {
        EvaluatedIsEval(p, coefficients, x);
      }
      return result;
    }

    /** `split`: draws the t - 1 random coefficients (any values in
        [1, p-1]) and evaluates the polynomial at 1, ..., n. */
    method Split(secret: u64) returns (r: Result<seq<Share>, SharingError>, ghost coefficients: seq<u64>)
      requires Valid()
      ensures r.Err? <==> secret >= prime
      ensures r.Err? ==> r.error == SecretNotBelowPrime
      ensures r.Ok? ==> IsSharingPolynomial(coefficients, secret, threshold, prime)
      ensures r.Ok? ==> AreSplitShares(r.value, coefficients, numShares, prime)
      ensures r.Ok? && prime <= TWO64 / 2 ==> AreSharesOf(r.value, coefficients, numShares, prime)
    {
      if secret >= prime {
        return Err(SecretNotBelowPrime), [];
      }
      var t := threshold;
      assert |seq(t - 1, _ => 1)| == t - 1;
      var random: seq<u64> :| |random| == t - 1 && forall i :: 0 <= i < t - 1 ==> 1 <= random[i] < prime;
      var c := [secret] + random;
      var shares: seq<Share> := [];
      var i := 1;
      while i <= numShares
        invariant 1 <= i <= numShares + 1
        invariant AreSplitShares(shares, c, i - 1, prime)
      {
        var v := EvaluatePolynomial(c, i);
        shares := shares + [Share(i, v)];
        i := i + 1;
      }
      if prime <= TWO64 / 2 {
        SplitSharesAreSharesOf(shares, c, numShares as nat, prime);
      }
      return Ok(shares), c;
    }

    /** `lagrange_interpolate`: f(0) from the first min(|shares|, threshold)
        shares, by the nested numerator/denominator loops. */
    method LagrangeInterpolate(shares: seq<Share>) returns (r: Result<u64, FieldError>)
      requires Valid()
      ensures r == Interpolate(prime, FirstShares(shares, threshold))
    {
      var p := prime;
      var m := if |shares| < threshold then |shares| else threshold as int;
      ghost var used := shares[..m];
      ghost var ids := Ids(used);
      assert |ids| == m;
      assert used == FirstShares(shares, threshold);
      var secret: u64 := 0;
      for i := 0 to m
        invariant Accumulated(p, used, i) == Ok(secret)
      {
        var numerator: u64 := 1;
        var denominator: u64 := 1;
        assert ids[i] == shares[i].id;
        for j := 0 to m
          invariant numerator == Numerator(p, ids, i, j)
          invariant denominator == Denominator(p, ids, i, j)
        {
          assert ids[j] == shares[j].id;
          if i != j {
            numerator := ModMul(p, numerator, ModSub(p, 0, shares[j].id));
            denominator := ModMul(p, denominator, ModSub(p, shares[i].id, shares[j].id));
          }
        }
        var inverse := ModInv(p, denominator);
        InterpolationStep(p, used, i, secret);
        if inverse.Err? {
          InterpolateKeepsError(p, used, i + 1);
          return Err(ZeroHasNoInverse);
        }
        var coefficient := ModMul(p, numerator, inverse.value);
        assert used[i].value == shares[i].value;
        var term := ModMul(p, shares[i].value, coefficient);
        secret := ModAdd64(p, secret, term);
      }
      assert Interpolate(p, used) == Ok(secret);
      return Ok(secret);
    }

    /** `reconstruct`: rejects short lists and repeated ids, then
        interpolates. */
    method Reconstruct(shares: seq<Share>) returns (r: Result<u64, SharingError>)
      requires Valid()
      ensures r == Reconstructed(threshold, prime, shares)
    {
      if |shares| < threshold {
        return Err(InsufficientShares);
      }
      var seen: set<u64> := {};
      for i := 0 to |shares|
        invariant seen == set k | 0 <= k < i :: shares[k].id
        invariant DistinctIds(shares[..i])
      {
        if shares[i].id in seen {
          return Err(DuplicateShareIds);
        }
        seen := seen + {shares[i].id};
      }
      assert shares[..|shares|] == shares;
      var v := LagrangeInterpolate(shares);
      if v.Err? {
        return Err(ZeroInverse);
      }
      return Ok(v.value);
    }
  }

  /** One round of `evaluate_polynomial` adds the next power-sum term (which
      `mod_add` does exactly while p <= 2^63) and advances the power of x. */
  lemma EvaluateStep(p: u64, c: seq<u64>, x: u64, i: nat, result: u64, xPower: u64)
    requires 2 <= p <= TWO64 / 2 && i < |c| && result == PowerSum(c, x, i) % p && xPower == Pow(x, i) % p
    ensures ModAdd64(p, result, ModMul(p, c[i], xPower)) == PowerSum(c, x, i + 1) % p
    ensures ModMul(p, xPower, x) == Pow(x, i + 1) % p
  {
    var s, q := PowerSum(c, x, i), Pow(x, i);
    var term := c[i] * q;
    assert PowerSum(c, x, i + 1) == s + term;
    ModMod(q, p);
    MulCongruent(c[i], xPower, c[i], q, p);
    ModMod(term, p);
    ModMod(s, p);
    AddMod(s, term, p);
    ModAdd64Agrees(p, result, ModMul(p, c[i], xPower));
    PowerStep(p, x, i, xPower);
  }

  lemma PowerStep(p: u64, x: u64, i: nat, xPower: u64)
    requires p >= 2 && xPower == Pow(x, i) % p
    ensures ModMul(p, xPower, x) == Pow(x, i + 1) % p
  {
    var q := Pow(x, i);
    ModMod(q, p);
    MulCongruent(xPower, x, q, x, p);
    assert Pow(x, i + 1) == x * q;
  }

  /** One round of `lagrange_interpolate`'s outer loop, given the inner
      loop's numerator and denominator. */
  lemma InterpolationStep(p: u64, shares: seq<Share>, i: nat, s: u64)
    requires p >= 2 && i < |shares| && Accumulated(p, shares, i) == Ok(s)
    ensures var ids := Ids(shares);
      var den := Denominator(p, ids, i, |ids|);
      Accumulated(p, shares, i + 1) ==
        if den == 0 then Err(ZeroHasNoInverse)
        else Ok(ModAdd64(p, s, ModMul(p, shares[i].value, ModMul(p, Numerator(p, ids, i, |ids|), Inv(p, den)))))
  {
  }

  /** Once a round of the interpolation fails, the whole interpolation has
      failed with that error. */
  lemma {:induction false} AccumulatedErrorPersists(p: u64, shares: seq<Share>, k: nat, m: nat)
    requires p >= 2 && k <= m <= |shares| && Accumulated(p, shares, k).Err?
    ensures Accumulated(p, shares, m) == Accumulated(p, shares, k)
    decreases m - k
  {
    if k < m {
      AccumulatedErrorPersists(p, shares, k + 1, m);
    }
  }

  lemma InterpolateKeepsError(p: u64, shares: seq<Share>, k: nat)
    requires p >= 2 && k <= |shares| && Accumulated(p, shares, k).Err?
    ensures Interpolate(p, shares) == Accumulated(p, shares, k)
  {
    AccumulatedErrorPersists(p, shares, k, |shares|);
  }

  /** Evaluating at x or at x mod p agrees modulo p. */
  lemma {:induction false} EvalMod(c: seq<int>, x: int, p: int)
    requires p > 0
    ensures Eval(c, x) % p == Eval(c, x % p) % p
    decreases |c|
  {
    if c != [] {
      var y := x % p;
      var e1, e2 := Eval(c[1..], x), Eval(c[1..], y);
      EvalMod(c[1..], x, p);
      ModMod(x, p);
      MulCongruent(x, e1, y, e2, p);
      assert Eval(c, x) == c[0] + x * e1 && Eval(c, y) == c[0] + y * e2;
      AddMod(c[0], x * e1, p);
      AddMod(c[0], y * e2, p);
    }
  }

  /** The elements at the given positions, in the given order: the shares,
      rows or parties a caller hands on to `reconstruct`. */
  function Pick<T>(xs: seq<T>, picks: seq<nat>): (r: seq<T>)
    requires forall k :: 0 <= k < |picks| ==> picks[k] < |xs|
    ensures |r| == |picks| && forall k :: 0 <= k < |picks| ==> r[k] == xs[picks[k]]
  {
    seq(|picks|, k requires 0 <= k < |picks| => xs[picks[k]])
  }

  /** The scheme's promise: for a prime larger than the number of shares
      and at most 2^63, any t or more distinct shares produced by `split`
      reconstruct the secret, whichever shares they are and in whatever
      order. */
  lemma ReconstructRecoversSecret(t: u64, n: u64, p: u64, c: seq<u64>, secret: u64,
                                  shares: seq<Share>, picks: seq<nat>)
    requires Prime(p) && 2 <= t <= n < p <= TWO64 / 2 && secret < p
    requires IsSharingPolynomial(c, secret, t, p) && AreSharesOf(shares, c, n, p)
    requires |picks| >= t && forall k :: 0 <= k < |picks| ==> picks[k] < n
    requires forall a, b :: 0 <= a < b < |picks| ==> picks[a] != picks[b]
    ensures Reconstructed(t, p, Pick(shares, picks)) == Ok(secret)
  {
    var chosen := Pick(shares, picks);
    var used := FirstShares(chosen, t);
    var ids := Ids(used);
    forall a, b | 0 <= a < b < |chosen| ensures chosen[a].id != chosen[b].id {
    }
    forall a, b | 0 <= a < b < |ids| ensures ids[a] % p != ids[b] % p {
      DivModUnique(ids[a], p, 0, ids[a]);
      DivModUnique(ids[b], p, 0, ids[b]);
    }
    InterpolateRecoversConstant(p, used, c);
    EvalAtZero(c);
    DivModUnique(secret, p, 0, secret);
  }
}

/** The worked example of the Lagrange test program: f(x) = 5 + 3x over the
    prime 2^64 - 59, shares at x = 1, 2, 3, and reconstruction of f(0) from
    the first two shares with the helpers written out by hand. */
module LagrangeExample {
  import opened Field
  import opened Fermat
  import opened Poly
  import opened Results
  import opened Lagrange
  import Shamir

  const P: u64 := LAGRANGE_TEST_PRIME

  /** The test's `mod_add` is the 64-bit one; on these small operands it
      does not wrap. The three shares are 8, 11 and 14. */
  lemma ExampleShares()
    ensures ModAdd64(P, 5, ModMul(P, 3, 1)) == 8
    ensures ModAdd64(P, 5, ModMul(P, 3, 2)) == 11
    ensures ModAdd64(P, 5, ModMul(P, 3, 3)) == 14
  {
    forall v | 0 <= v <= 14
      ensures v % P == v && v % TWO64 == v
    {
      DivModUnique(v, P, 0, v);
      DivModUnique(v, TWO64, 0, v);
    }
  }

  /** p - 1 is its own inverse modulo p. */
  lemma MinusOneSelfInverse(p: u64)
    requires Prime(p)
    ensures Inv(p, p - 1) == p - 1
  {
    assert (p - 1) * (p - 1) == (p - 2) * p + 1;
    DivModUnique((p - 1) * (p - 1), p, p - 2, 1);
    InverseUnique(p, p - 1, p - 1);
  }

  /** The basis values at 0: L1(0) = (0-2)/(1-2) = 2 and L2(0) = (0-1)/(2-1) = -1. */
  lemma ExampleBasis()
    requires Prime(P)
    ensures ModSub(P, 0, 2) == P - 2 && ModSub(P, 1, 2) == P - 1
    ensures ModSub(P, 0, 1) == P - 1 && ModSub(P, 2, 1) == 1
    ensures ModMul(P, ModSub(P, 0, 2), Inv(P, ModSub(P, 1, 2))) == 2
    ensures ModMul(P, ModSub(P, 0, 1), Inv(P, ModSub(P, 2, 1))) == P - 1
  {
    MinusOneSelfInverse(P);
    InverseUnique(P, 1, 1);
  }

  /** The test's final line: 8 * L1(0) + 11 * L2(0) is the secret 5. */
  lemma ExampleReconstructs()
    requires Prime(P)
    ensures ModAdd64(P, ModMul(P, 8, ModMul(P, ModSub(P, 0, 2), Inv(P, ModSub(P, 1, 2)))),
                        ModMul(P, 11, ModMul(P, ModSub(P, 0, 1), Inv(P, ModSub(P, 2, 1))))) == 5
  {
    ExampleBasis();
    var a, b := ModMul(P, 8, 2), ModMul(P, 11, P - 1);
    DivModUnique(8 * 2, P, 0, 16);
    assert a == 16;
    assert 11 * (P - 1) == 10 * P + (P - 11);
    DivModUnique(11 * (P - 1), P, 10, P - 11);
    assert b == P - 11;
    DivModUnique(16, P, 0, 16);
    DivModUnique(P - 11, P, 0, P - 11);
    DivModUnique(P + 5, TWO64, 0, P + 5);
    DivModUnique(P + 5, P, 1, 5);
  }

  /** f(x) = 5 + 3x as a coefficient sequence: f(0) = 5, f(1) = 8, f(2) = 11. */
  lemma LineValues()
    ensures Eval([5, 3], 0) == 5 && Eval([5, 3], 1) == 8 && Eval([5, 3], 2) == 11
  {
    assert [5, 3][1..] == [3];
    assert [3][1..] == [];
  }

  lemma MulOne(x: u64)
    requires x < P
    ensures ModMul(P, 1, x) == x
  {
    DivModUnique(x, P, 0, x);
  }

  /** `lagrange_interpolate` on two shares at x = 1 and x = 2: the rounds
      add y1 * L1(0) = 2 * y1 and then y2 * L2(0) = (p - 1) * y2, each with
      the 64-bit `mod_add`. */
  lemma TwoShareInterpolation(y1: u64, y2: u64)
    requires Prime(P)
    ensures Interpolate(P, [Share(1, y1), Share(2, y2)])
         == Ok(ModAdd64(P, ModAdd64(P, 0, ModMul(P, y1, 2)), ModMul(P, y2, P - 1)))
  {
    var shares := [Share(1, y1), Share(2, y2)];
    assert Ids(shares) == [1, 2];
    FirstTerm(shares);
    SecondTerm(shares);
    assert Accumulated(P, shares, 1) == Ok(ModAdd64(P, 0, ModMul(P, y1, 2)));
  }

  /** Round 0 on shares at 1 and 2: numerator 0 - 2, denominator 1 - 2. */
  lemma FirstTerm(shares: seq<Share>)
    requires Prime(P) && |shares| == 2 && Ids(shares) == [1, 2]
    ensures Term(P, shares, 0) == Ok(ModMul(P, shares[0].value, 2))
  {
    var ids := Ids(shares);
    ExampleBasis();
    MulOne(P - 2);
    MulOne(P - 1);
    assert Numerator(P, ids, 0, 1) == 1;
    assert Numerator(P, ids, 0, 2) == ModMul(P, 1, ModSub(P, 0, 2));
    assert Denominator(P, ids, 0, 1) == 1;
    assert Denominator(P, ids, 0, 2) == ModMul(P, 1, ModSub(P, 1, 2));
  }

  /** Round 1 on shares at 1 and 2: numerator 0 - 1, denominator 2 - 1. */
  lemma SecondTerm(shares: seq<Share>)
    requires Prime(P) && |shares| == 2 && Ids(shares) == [1, 2]
    ensures Term(P, shares, 1) == Ok(ModMul(P, shares[1].value, P - 1))
  {
    var ids := Ids(shares);
    ExampleBasis();
    MulOne(P - 1);
    MulOne(1);
    assert Numerator(P, ids, 1, 2) == Numerator(P, ids, 1, 1) == ModMul(P, 1, ModSub(P, 0, 1));
    assert Denominator(P, ids, 1, 2) == Denominator(P, ids, 1, 1) == ModMul(P, 1, ModSub(P, 2, 1));
  }

  /** The same two shares, given to the library's interpolation, give 5 too. */
  lemma ExampleAgreesWithInterpolate()
    requires Prime(P)
    ensures Interpolate(P, [Share(1, 8), Share(2, 11)]) == Ok(5)
  {
    TwoShareInterpolation(8, 11);
    ExampleReconstructs();
    ExampleBasis();
    DivModUnique(16, P, 0, 16);
    DivModUnique(16, TWO64, 0, 16);
  }

  /** With this 64-bit prime `mod_add` wraps, and `reconstruct` loses the
      secret: f(x) = 100 + x is a polynomial `split` may draw for the
      secret 100 with t = 2, its shares at 1 and 2 are 101 and 102, and
      reconstructing from them gives 41, because 2 * 101 + (p - 1) * 102
      reduced term by term is 202 + (p - 102) = 2^64 + 41. */
  lemma InterpolationWraps()
    requires Prime(P)
    ensures Shamir.IsSharingPolynomial([100, 1], 100, 2, P)
    ensures Shamir.AreSharesOf([Share(1, 101), Share(2, 102)], [100, 1], 2, P)
    ensures Shamir.Reconstructed(2, P, [Share(1, 101), Share(2, 102)]) == Ok(41)
    ensures Eval([100, 1], 0) == 100
  {
    var shares := [Share(1, 101), Share(2, 102)];
    assert [100, 1][1..] == [1];
    assert [1][1..] == [];
    DivModUnique(101, P, 0, 101);
    DivModUnique(102, P, 0, 102);
    TwoShareInterpolation(101, 102);
    DivModUnique(202, P, 0, 202);
    DivModUnique(202, TWO64, 0, 202);
    assert 102 * (P - 1) == 101 * P + (P - 102);
    DivModUnique(102 * (P - 1), P, 101, P - 102);
    DivModUnique(P - 102, P, 0, P - 102);
    DivModUnique(P + 100, TWO64, 1, 41);
    DivModUnique(41, P, 0, 41);
    assert Shamir.FirstShares(shares, 2) == shares;
  }
}

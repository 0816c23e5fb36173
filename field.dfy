/** Arithmetic in the prime field used by the secret-sharing class: the
    `mod_add`, `mod_sub`, `mod_mul`, `mod_pow` and `mod_inv` members of
    `ShamirSecretSharing`, on 64-bit unsigned operands. */
module Field {
  import opened Results

  /** 2^64: the modulus of C++ `uint64_t` arithmetic. */
  const TWO64: int := 0x1_0000_0000_0000_0000
  /** 2^128: the modulus of `__uint128_t` arithmetic. */
  const TWO128: int := 0x1_0000_0000_0000_0000_0000_0000_0000_0000

  /** The source's `BigInt`, an alias of `uint64_t`. */
  type u64 = x: int | 0 <= x < TWO64

  /** p is a prime number. */
  ghost predicate Prime(p: int) {
    p >= 2 && forall d :: 1 < d < p ==> p % d != 0
  }

  datatype FieldError = ZeroHasNoInverse

  // ---------------------------------------------------------------------
  // Facts about Euclidean division used throughout the model.
  // ---------------------------------------------------------------------

  lemma MulAtLeast(d: int, p: int)
    requires d >= 1 && p > 0
    ensures d * p >= p
  {
  }

  /** Quotient and remainder are determined by x == q * p + r, 0 <= r < p. */
  lemma DivModUnique(x: int, p: int, q: int, r: int)
    requires p > 0 && x == q * p + r && 0 <= r < p
    ensures x % p == r && x / p == q
  {
    var q0, r0 := x / p, x % p;
    assert x == q0 * p + r0;
    assert (q - q0) * p == r0 - r;
    if q - q0 >= 1 {
      MulAtLeast(q - q0, p);
    } else if q0 - q >= 1 {
      MulAtLeast(q0 - q, p);
    }
  }

  lemma AddMod(a: int, b: int, p: int)
    requires p > 0
    ensures (a + b) % p == (a % p + b % p) % p
  {
    var s := a % p + b % p;
    DivModUnique(s, p, s / p, s % p);
    assert a + b == (a / p + b / p + s / p) * p + s % p;
    DivModUnique(a + b, p, a / p + b / p + s / p, s % p);
  }

  lemma SubMod(a: int, b: int, p: int)
    requires p > 0
    ensures (a - b) % p == (a % p - b % p) % p
  {
    var s := a % p - b % p;
    DivModUnique(s, p, s / p, s % p);
    assert a - b == (a / p - b / p + s / p) * p + s % p;
    DivModUnique(a - b, p, a / p - b / p + s / p, s % p);
  }

  lemma Expand(qa: int, ra: int, qb: int, rb: int, p: int)
    ensures (qa * p + ra) * (qb * p + rb) == (qa * qb * p + qa * rb + ra * qb) * p + ra * rb
  {
    assert (qa * p + ra) * (qb * p + rb) == qa * p * (qb * p + rb) + ra * (qb * p + rb);
    assert qa * p * (qb * p + rb) == (qa * qb * p + qa * rb) * p;
    assert ra * (qb * p + rb) == (ra * qb) * p + ra * rb;
  }

  lemma MulMod(a: int, b: int, p: int)
    requires p > 0
    ensures (a * b) % p == ((a % p) * (b % p)) % p
  {
    var qa, ra, qb, rb := a / p, a % p, b / p, b % p;
    var m := ra * rb;
    Expand(qa, ra, qb, rb, p);
    assert a * b == (qa * qb * p + qa * rb + ra * qb) * p + m;
    DivModUnique(a * b, p, qa * qb * p + qa * rb + ra * qb + m / p, m % p);
  }

  lemma ModMod(a: int, p: int)
    requires p > 0
    ensures (a % p) % p == a % p
  {
    DivModUnique(a % p, p, 0, a % p);
  }

  lemma MultipleMod(k: int, p: int, x: int)
    requires p > 0
    ensures (k * p + x) % p == x % p
  {
    DivModUnique(k * p + x, p, k + x / p, x % p);
  }

  /** Congruent numbers differ by a multiple of p. */
  lemma CongruentDiff(a: int, b: int, p: int)
    requires p > 0
    ensures (a % p == b % p) <==> (a - b) % p == 0
  {
    SubMod(a, b, p);
    var d := a % p - b % p;
    if d % p == 0 {
      // -p < d < p, so d is 0
      if d > 0 { DivModUnique(d, p, 0, d); }
      else if d < 0 { DivModUnique(d, p, -1, d + p); }
    }
  }

  // ---------------------------------------------------------------------
  // The field operations.
  // ---------------------------------------------------------------------

  /** `mod_add` with the sum of the two reduced operands kept exact: the
      field sum.  `ModAdd64` below is the operation as the C++ computes it. */
  function ModAdd(p: u64, a: u64, b: u64): (r: u64)
    requires p >= 2
    ensures r < p && r == (a + b) % p
  {
    AddMod(a, b, p);
    (a % p + b % p) % p
  }

  /** `mod_add` as written: the sum of the two reduced operands is a
      `uint64_t`, so it wraps modulo 2^64 before the final reduction. */
  function ModAdd64(p: u64, a: u64, b: u64): (r: u64)
    requires p >= 2
    ensures r < p
  {
    ((a % p + b % p) % TWO64) % p
  }

  /** For every prime up to 2^63 the wrap-around cannot happen, so the
      source's addition is the field sum. */
  lemma ModAdd64Agrees(p: u64, a: u64, b: u64)
    requires 2 <= p <= TWO64 / 2
    ensures ModAdd64(p, a, b) == ModAdd(p, a, b)
  {
    DivModUnique(a % p + b % p, TWO64, 0, a % p + b % p);
  }

  /** The prime of the Lagrange test program, 2^64 - 59. */
  const LAGRANGE_TEST_PRIME: u64 := 18446744073709551557

  /** With that prime, adding p - 1 to itself wraps: the source returns
      2^64 - 120 instead of the field sum p - 2. */
  lemma ModAdd64Overflows()
    ensures ModAdd64(LAGRANGE_TEST_PRIME, LAGRANGE_TEST_PRIME - 1, LAGRANGE_TEST_PRIME - 1)
         == 18446744073709551496
    ensures ModAdd(LAGRANGE_TEST_PRIME, LAGRANGE_TEST_PRIME - 1, LAGRANGE_TEST_PRIME - 1)
         == LAGRANGE_TEST_PRIME - 2
  {
    var p := LAGRANGE_TEST_PRIME;
    DivModUnique(p - 1, p, 0, p - 1);
    DivModUnique(2 * p - 2, TWO64, 1, 2 * p - 2 - TWO64);
    DivModUnique(2 * p - 2 - TWO64, p, 0, 2 * p - 2 - TWO64);
    DivModUnique(2 * p - 2, p, 1, p - 2);
  }

  /** `mod_sub`: both operands are reduced, then the difference is taken
      in whichever order stays non-negative. */
  function ModSub(p: u64, a: u64, b: u64): (r: u64)
    requires p >= 2
    ensures r < p && r == (a - b) % p
  {
    var a', b' := a % p, b % p;
    SubMod(a, b, p);
    if a' >= b' then
      DivModUnique(a' - b', p, 0, a' - b');
      (a' - b') % p
    else
      DivModUnique(b' - a', p, 0, b' - a');
      DivModUnique(a' - b', p, -1, p - (b' - a'));
      DivModUnique(p - (b' - a') % p, p, 0, p - (b' - a') % p);
      (p - (b' - a') % p) % p
  }

  /** `mod_mul`: the product of the reduced operands is formed in 128 bits
      and reduced; it never wraps, so the result is the field product. */
  function ModMul(p: u64, a: u64, b: u64): (r: u64)
    requires p >= 2
    ensures r < p && r == (a * b) % p
  {
    var a', b' := a % p, b % p;
    assert a' * b' <= (p - 1) * (p - 1) < TWO128 by {
      MulLe(a', p - 1, b', p - 1);
    }
    DivModUnique(a' * b', TWO128, 0, a' * b');
    MulMod(a, b, p);
    ((a' * b') % TWO128) % p
  }

  lemma MulLe(a: int, a1: int, b: int, b1: int)
    requires 0 <= a <= a1 && 0 <= b <= b1
    ensures a * b <= a1 * b1
  {
    assert a * b <= a1 * b;
    assert a1 * b <= a1 * b1;
  }

  /** b raised to the e-th power, over the integers. */
  function Pow(b: int, e: nat): int
  {
    if e == 0 then 1 else b * Pow(b, e - 1)
  }

  lemma {:induction false} PowAdd(b: int, e1: nat, e2: nat)
    ensures Pow(b, e1 + e2) == Pow(b, e1) * Pow(b, e2)
    decreases e1
  {
    if e1 > 0 {
      PowAdd(b, e1 - 1, e2);
      assert Pow(b, e1 + e2) == b * Pow(b, e1 - 1 + e2);
    }
  }

  lemma {:induction false} PowSquare(b: int, e: nat)
    ensures Pow(b, 2 * e) == Pow(b * b, e)
    decreases e
  {
    if e > 0 {
      PowSquare(b, e - 1);
      PowAdd(b, 2, 2 * e - 2);
      assert Pow(b, 1) == b;
      assert Pow(b, 2) == b * b;
    }
  }

  /** Powers respect congruence modulo p. */
  lemma {:induction false} PowMod(b: int, e: nat, p: int)
    requires p > 0
    ensures Pow(b, e) % p == Pow(b % p, e) % p
    decreases e
  {
    if e > 0 {
      PowMod(b, e - 1, p);
      MulMod(b, Pow(b, e - 1), p);
      MulMod(b % p, Pow(b % p, e - 1), p);
      ModMod(b, p);
    }
  }

  lemma PowHalf(b: int, e: nat)
    ensures Pow(b, e) == (if e % 2 == 1 then b else 1) * Pow(b * b, e / 2)
  {
    PowSquare(b, e / 2);
    if e % 2 == 1 {
      PowAdd(b, 1, 2 * (e / 2));
      assert Pow(b, 1) == b;
    }
  }

  /** Multiplying congruent factors gives congruent products. */
  lemma MulCongruent(x: int, y: int, x1: int, y1: int, p: int)
    requires p > 0 && x % p == x1 % p && y % p == y1 % p
    ensures (x * y) % p == (x1 * y1) % p
  {
    MulMod(x, y, p);
    MulMod(x1, y1, p);
  }

  /** One round of `mod_pow` keeps result * base^exp fixed modulo p. */
  lemma ModPowStep(p: int, r0: int, b0: int, e0: nat, r1: int, b1: int)
    requires p > 0
    requires r1 == (if e0 % 2 == 1 then (r0 * b0) % p else r0)
    requires b1 == (b0 * b0) % p
    ensures (r1 * Pow(b1, e0 / 2)) % p == (r0 * Pow(b0, e0)) % p
  {
    var e := e0 / 2;
    var q := Pow(b0 * b0, e);
    PowHalf(b0, e0);
    PowMod(b0 * b0, e, p);
    assert Pow(b1, e) % p == q % p;
    if e0 % 2 == 1 {
      ModMod(r0 * b0, p);
      MulCongruent(r1, Pow(b1, e), r0 * b0, q, p);
      assert r0 * Pow(b0, e0) == (r0 * b0) * q by {
        assert Pow(b0, e0) == b0 * q;
      }
    } else {
      MulCongruent(r1, Pow(b1, e), r0, q, p);
      assert Pow(b0, e0) == q;
    }
  }

  /** `mod_pow`: square-and-multiply over the bits of the exponent,
      least significant bit first. */
  method ModPow(p: u64, base: u64, exp: u64) returns (result: u64)
    requires p >= 2
    ensures result == Pow(base, exp) % p
  {
    result := 1;
    var b: u64 := base % p;
    var e: u64 := exp;
    PowMod(base, exp, p);
    MulMod(1, Pow(b, e), p);
    DivModUnique(1, p, 0, 1);
    while e > 0
      invariant result < p && b < p
      invariant (result * Pow(b, e)) % p == Pow(base, exp) % p
      decreases e
    {
      ghost var e0, b0, r0 := e, b, result;
      if e % 2 == 1 {
        result := ModMul(p, result, b);
      }
      e := e / 2;
      b := ModMul(p, b, b);
      ModPowStep(p, r0, b0, e0, result, b);
    }
    DivModUnique(result, p, 0, result);
  }

  /** What `mod_inv` returns for a non-zero operand: a^(p-2) mod p. */
  function Inv(p: u64, a: u64): (r: u64)
    requires p >= 2
    ensures r < p
  {
    PowNonNeg(a % p, p - 2);
    Pow(a % p, p - 2) % p
  }

  lemma {:induction false} PowNonNeg(b: int, e: nat)
    requires b >= 0
    ensures Pow(b, e) >= 0
    decreases e
  {
    if e > 0 {
      PowNonNeg(b, e - 1);
    }
  }

  /** `mod_inv`: refuses 0 (the source throws), otherwise raises the
      reduced operand to p - 2. */
  method ModInv(p: u64, a: u64) returns (r: Result<u64, FieldError>)
    requires p >= 2
    ensures a == 0 <==> r.Err?
    ensures r.Ok? ==> r.value == Inv(p, a)
  {
    if a == 0 {
      return Err(ZeroHasNoInverse);
    }
    var a': u64 := a % p;
    var v := ModPow(p, a', p - 2);
    return Ok(v);
  }
}

/** Polynomials over the integers, read modulo a prime: the facts about
    Shamir's polynomial f(x) = c0 + c1 x + ... + c(t-1) x^(t-1) that make
    Lagrange interpolation recover the secret c0. A polynomial is its
    coefficient sequence, lowest degree first. */
module Poly {
  import opened Field
  import opened Fermat

  /** Horner evaluation. */
  function Eval(c: seq<int>, x: int): int
  {
    if c == [] then 0 else c[0] + x * Eval(c[1..], x)
  }

  /** c[0] + c[1] x + ... + c[i-1] x^(i-1): the partial sum after i rounds
      of `evaluate_polynomial`. */
  function PowerSum(c: seq<int>, x: int, i: nat): int
    requires i <= |c|
  {
    if i == 0 then 0 else PowerSum(c, x, i - 1) + c[i - 1] * Pow(x, i - 1)
  }

  lemma {:induction false} PowerSumShift(c: seq<int>, x: int, i: nat)
    requires i < |c|
    ensures PowerSum(c, x, i + 1) == c[0] + x * PowerSum(c[1..], x, i)
    decreases i
  {
    if i > 0 {
      PowerSumShift(c, x, i - 1);
      assert Pow(x, i) == x * Pow(x, i - 1);
      assert c[1..][i - 1] == c[i];
    }
  }

  /** The power-sum order and Horner's rule compute the same value. */
  lemma {:induction false} PowerSumIsEval(c: seq<int>, x: int)
    ensures PowerSum(c, x, |c|) == Eval(c, x)
    decreases |c|
  {
    if c != [] {
      PowerSumShift(c, x, |c| - 1);
      PowerSumIsEval(c[1..], x);
    }
  }

  lemma {:induction false} EvalAtZero(c: seq<int>)
    requires c != []
    ensures Eval(c, 0) == c[0]
  {
  }

  // ---------------------------------------------------------------------
  // Division by (x - r) and the root-counting argument.
  // ---------------------------------------------------------------------

  /** Quotient of synthetic division of c by (x - r). */
  function Quotient(c: seq<int>, r: int): seq<int>
  {
    if |c| <= 1 then [] else [Eval(c[1..], r)] + Quotient(c[1..], r)
  }

  lemma QuotientStep(c0: int, x: int, r: int, e: int, v: int)
    ensures c0 + x * ((x - r) * e + v) == (x - r) * (v + x * e) + (c0 + r * v)
  {
    assert x * ((x - r) * e + v) == x * ((x - r) * e) + x * v;
    assert (x - r) * (v + x * e) == (x - r) * v + (x - r) * (x * e);
    assert x * ((x - r) * e) == (x - r) * (x * e);
    assert (x - r) * v == x * v - r * v;
  }

  lemma {:induction false} QuotientEval(c: seq<int>, r: int, x: int)
    ensures |Quotient(c, r)| == if |c| == 0 then 0 else |c| - 1
    ensures Eval(c, x) == (x - r) * Eval(Quotient(c, r), x) + Eval(c, r)
    decreases |c|
  {
    if |c| >= 2 {
      var c' := c[1..];
      var q', v' := Quotient(c', r), Eval(c', r);
      QuotientEval(c', r, x);
      var e := Eval(q', x);
      assert Eval(c', x) == (x - r) * e + v';
      assert Eval(Quotient(c, r), x) == v' + x * e;
      assert Eval(c, x) == c[0] + x * ((x - r) * e + v');
      assert Eval(c, r) == c[0] + r * v';
      QuotientStep(c[0], x, r, e, v');
    }
  }

  /** Values pairwise distinct modulo p. */
  ghost predicate DistinctMod(p: int, xs: seq<int>)
    requires p > 0
  {
    forall i, j :: 0 <= i < j < |xs| ==> xs[i] % p != xs[j] % p
  }

  /** Dividing a polynomial that vanishes at the points by x - r, for r the
      last point, leaves one that vanishes at the others. */
  lemma QuotientVanishes(p: int, c: seq<int>, xs: seq<int>)
    requires Prime(p) && |xs| > 0 && DistinctMod(p, xs)
    requires forall k :: 0 <= k < |xs| ==> Eval(c, xs[k]) % p == 0
    ensures forall k :: 0 <= k < |xs| - 1 ==> Eval(Quotient(c, xs[|xs| - 1]), xs[k]) % p == 0
  {
    var r := xs[|xs| - 1];
    var q := Quotient(c, r);
    forall k | 0 <= k < |xs| - 1 ensures Eval(q, xs[k]) % p == 0 {
      QuotientEval(c, r, xs[k]);
      var u := (xs[k] - r) * Eval(q, xs[k]);
      assert Eval(c, xs[k]) == u + Eval(c, r);
      AddMod(u, Eval(c, r), p);
      DivModUnique(0, p, 0, 0);
      ModMod(u, p);
      CongruentDiff(xs[k], r, p);
      if Eval(q, xs[k]) % p != 0 {
        Euclid(p, xs[k] - r, Eval(q, xs[k]));
      }
    }
  }

  /** A polynomial with at most m coefficients that vanishes modulo a prime
      at m points distinct modulo that prime vanishes at 0 too. */
  lemma {:induction false} VanishAtZero(p: int, c: seq<int>, xs: seq<int>)
    requires Prime(p) && |c| <= |xs| && DistinctMod(p, xs)
    requires forall k :: 0 <= k < |xs| ==> Eval(c, xs[k]) % p == 0
    ensures Eval(c, 0) % p == 0
    decreases |xs|
  {
    if c == [] {
      DivModUnique(0, p, 0, 0);
    } else {
      var r := xs[|xs| - 1];
      var q := Quotient(c, r);
      QuotientVanishes(p, c, xs);
      QuotientEval(c, r, 0);
      VanishAtZero(p, q, xs[..|xs| - 1]);
      var u := (0 - r) * Eval(q, 0);
      MulMod(0 - r, Eval(q, 0), p);
      DivModUnique(0, p, 0, 0);
      AddMod(u, Eval(c, r), p);
    }
  }

  // ---------------------------------------------------------------------
  // Building polynomials: sum, scaling, multiplication by (x - r).
  // ---------------------------------------------------------------------

  function Add(a: seq<int>, b: seq<int>): (r: seq<int>)
    ensures |r| == if |a| < |b| then |b| else |a|
  {
    if a == [] then b
    else if b == [] then a
    else [a[0] + b[0]] + Add(a[1..], b[1..])
  }

  lemma {:induction false} AddEval(a: seq<int>, b: seq<int>, x: int)
    ensures Eval(Add(a, b), x) == Eval(a, x) + Eval(b, x)
    decreases |a|
  {
    if a != [] && b != [] {
      var s := Add(a, b);
      assert s[0] == a[0] + b[0] && s[1..] == Add(a[1..], b[1..]);
      AddEval(a[1..], b[1..], x);
      var ea, eb := Eval(a[1..], x), Eval(b[1..], x);
      assert Eval(s, x) == a[0] + b[0] + x * (ea + eb);
      assert x * (ea + eb) == x * ea + x * eb;
    }
  }

  function Scale(a: seq<int>, s: int): (r: seq<int>)
    ensures |r| == |a|
  {
    if a == [] then [] else [s * a[0]] + Scale(a[1..], s)
  }

  lemma {:induction false} ScaleEval(a: seq<int>, s: int, x: int)
    ensures Eval(Scale(a, s), x) == s * Eval(a, x)
    decreases |a|
  {
    if a != [] {
      ScaleEval(a[1..], s, x);
      var e := Eval(a[1..], x);
      assert x * (s * e) == s * (x * e);
    }
  }

  /** (x - r) * a. */
  function MulRoot(a: seq<int>, r: int): (q: seq<int>)
    ensures |q| == |a| + 1
  {
    Add([0] + a, Scale(a, -r))
  }

  lemma MulRootEval(a: seq<int>, r: int, x: int)
    ensures Eval(MulRoot(a, r), x) == (x - r) * Eval(a, x)
  {
    var e := Eval(a, x);
    AddEval([0] + a, Scale(a, -r), x);
    ScaleEval(a, -r, x);
    assert ([0] + a)[1..] == a;
    assert Eval([0] + a, x) == x * e;
    assert (x - r) * e == x * e + (-r) * e;
  }

  /** The product of (x - xs[j]) over j < m, j != i, the numerator of the
      i-th Lagrange basis polynomial, evaluated at x. */
  function ProdExcept(xs: seq<int>, i: nat, m: nat, x: int): int
    requires m <= |xs|
  {
    if m == 0 then 1
    else if m - 1 == i then ProdExcept(xs, i, m - 1, x)
    else ProdExcept(xs, i, m - 1, x) * (x - xs[m - 1])
  }

  /** The same product as a polynomial. */
  function ProdExceptPoly(xs: seq<int>, i: nat, m: nat): seq<int>
    requires m <= |xs|
  {
    if m == 0 then [1]
    else if m - 1 == i then ProdExceptPoly(xs, i, m - 1)
    else MulRoot(ProdExceptPoly(xs, i, m - 1), xs[m - 1])
  }

  lemma {:induction false} ProdExceptPolyLength(xs: seq<int>, i: nat, m: nat)
    requires m <= |xs|
    ensures |ProdExceptPoly(xs, i, m)| == if i < m then m else m + 1
    decreases m
  {
    if m > 0 {
      ProdExceptPolyLength(xs, i, m - 1);
    }
  }

  lemma ProdExceptPolyStep(xs: seq<int>, i: nat, m: nat, x: int)
    requires 0 < m <= |xs| && m - 1 != i
    requires Eval(ProdExceptPoly(xs, i, m - 1), x) == ProdExcept(xs, i, m - 1, x)
    ensures Eval(ProdExceptPoly(xs, i, m), x) == ProdExcept(xs, i, m, x)
  {
    var a, r := ProdExceptPoly(xs, i, m - 1), xs[m - 1];
    MulRootEval(a, r, x);
    assert ProdExcept(xs, i, m, x) == ProdExcept(xs, i, m - 1, x) * (x - r);
  }

  lemma {:induction false} ProdExceptPolyEval(xs: seq<int>, i: nat, m: nat, x: int)
    requires m <= |xs|
    ensures Eval(ProdExceptPoly(xs, i, m), x) == ProdExcept(xs, i, m, x)
    decreases m
  {
    if m == 0 {
      assert Eval([1], x) == 1 + x * Eval([], x);
    } else if m - 1 == i {
      ProdExceptPolyEval(xs, i, m - 1, x);
    } else {
      ProdExceptPolyEval(xs, i, m - 1, x);
      ProdExceptPolyStep(xs, i, m, x);
    }
  }

  /** The basis numerator vanishes at every other point. */
  lemma {:induction false} ProdExceptZero(xs: seq<int>, i: nat, m: nat, k: nat)
    requires m <= |xs| && k < m && k != i
    ensures ProdExcept(xs, i, m, xs[k]) == 0
    decreases m
  {
    if k < m - 1 {
      ProdExceptZero(xs, i, m - 1, k);
    }
  }

  /** ... and not at its own point, modulo a prime that separates the points. */
  lemma {:induction false} ProdExceptUnit(p: int, xs: seq<int>, i: nat, m: nat)
    requires Prime(p) && DistinctMod(p, xs) && i < |xs| && m <= |xs|
    ensures ProdExcept(xs, i, m, xs[i]) % p != 0
    decreases m
  {
    if m == 0 {
      DivModUnique(1, p, 0, 1);
    } else {
      ProdExceptUnit(p, xs, i, m - 1);
      if m - 1 != i {
        CongruentDiff(xs[i], xs[m - 1], p);
        Euclid(p, ProdExcept(xs, i, m - 1, xs[i]), xs[i] - xs[m - 1]);
      }
    }
  }

  // ---------------------------------------------------------------------
  // Lagrange interpolation at 0.
  // ---------------------------------------------------------------------

  /** Sum over i < n of ws[i] times the i-th basis numerator at x. */
  function WeightedSum(xs: seq<int>, ws: seq<int>, n: nat, x: int): int
    requires n <= |xs| && n <= |ws|
  {
    if n == 0 then 0 else WeightedSum(xs, ws, n - 1, x) + ws[n - 1] * ProdExcept(xs, n - 1, |xs|, x)
  }

  /** The interpolating polynomial whose value is that weighted sum. */
  function Interpolant(xs: seq<int>, ws: seq<int>, n: nat): seq<int>
    requires n <= |xs| && n <= |ws|
  {
    if n == 0 then [] else Add(Interpolant(xs, ws, n - 1), Scale(ProdExceptPoly(xs, n - 1, |xs|), ws[n - 1]))
  }

  lemma AddScaleEval(a: seq<int>, b: seq<int>, w: int, x: int)
    ensures Eval(Add(a, Scale(b, w)), x) == Eval(a, x) + w * Eval(b, x)
  {
    AddEval(a, Scale(b, w), x);
    ScaleEval(b, w, x);
  }

  lemma {:induction false} InterpolantLength(xs: seq<int>, ws: seq<int>, n: nat)
    requires n <= |xs| && n <= |ws|
    ensures |Interpolant(xs, ws, n)| <= |xs|
    decreases n
  {
    if n > 0 {
      InterpolantLength(xs, ws, n - 1);
      ProdExceptPolyLength(xs, n - 1, |xs|);
    }
  }

  lemma {:induction false} InterpolantEval(xs: seq<int>, ws: seq<int>, n: nat, x: int)
    requires n <= |xs| && n <= |ws|
    ensures Eval(Interpolant(xs, ws, n), x) == WeightedSum(xs, ws, n, x)
    decreases n
  {
    if n > 0 {
      var b, w := ProdExceptPoly(xs, n - 1, |xs|), ws[n - 1];
      InterpolantEval(xs, ws, n - 1, x);
      ProdExceptPolyEval(xs, n - 1, |xs|, x);
      AddScaleEval(Interpolant(xs, ws, n - 1), b, w, x);
    }
  }

  /** At the k-th point only the k-th term of the sum survives. */
  lemma {:induction false} WeightedSumAtPoint(xs: seq<int>, ws: seq<int>, n: nat, k: nat)
    requires n <= |xs| && n <= |ws| && k < |xs|
    ensures WeightedSum(xs, ws, n, xs[k]) == if k < n then ws[k] * ProdExcept(xs, k, |xs|, xs[k]) else 0
    decreases n
  {
    if n > 0 {
      WeightedSumAtPoint(xs, ws, n - 1, k);
      if n - 1 != k {
        ProdExceptZero(xs, n - 1, |xs|, k);
      }
    }
  }

  /** f minus the interpolant vanishes at every point. */
  lemma DifferenceVanishes(p: int, c: seq<int>, xs: seq<int>, ws: seq<int>, k: nat)
    requires p > 0 && |ws| == |xs| && k < |xs|
    requires (ws[k] * ProdExcept(xs, k, |xs|, xs[k])) % p == Eval(c, xs[k]) % p
    ensures Eval(Add(c, Scale(Interpolant(xs, ws, |xs|), -1)), xs[k]) % p == 0
  {
    var l := Interpolant(xs, ws, |xs|);
    AddEval(c, Scale(l, -1), xs[k]);
    ScaleEval(l, -1, xs[k]);
    InterpolantEval(xs, ws, |xs|, xs[k]);
    WeightedSumAtPoint(xs, ws, |xs|, k);
    CongruentDiff(Eval(c, xs[k]), Eval(l, xs[k]), p);
  }

  lemma SameModulo(p: int, d: int, a: int, b: int)
    requires p > 0 && d == a - b && d % p == 0
    ensures b % p == a % p
  {
    CongruentDiff(a, b, p);
  }

  lemma EvalDifference(c: seq<int>, l: seq<int>, x: int)
    ensures Eval(Add(c, Scale(l, -1)), x) == Eval(c, x) - Eval(l, x)
  {
    AddEval(c, Scale(l, -1), x);
    ScaleEval(l, -1, x);
  }

  /** The difference of f and the interpolant, f - L. */
  function Residual(c: seq<int>, xs: seq<int>, ws: seq<int>): seq<int>
    requires |ws| == |xs|
  {
    Add(c, Scale(Interpolant(xs, ws, |xs|), -1))
  }

  lemma ResidualVanishes(p: int, c: seq<int>, xs: seq<int>, ws: seq<int>)
    requires p > 0 && |ws| == |xs|
    requires forall k :: 0 <= k < |xs| ==>
      (ws[k] * ProdExcept(xs, k, |xs|, xs[k])) % p == Eval(c, xs[k]) % p
    ensures forall k :: 0 <= k < |xs| ==> Eval(Residual(c, xs, ws), xs[k]) % p == 0
  {
    forall k | 0 <= k < |xs| ensures Eval(Residual(c, xs, ws), xs[k]) % p == 0 {
      DifferenceVanishes(p, c, xs, ws, k);
    }
  }

  lemma ResidualAtZero(p: int, c: seq<int>, xs: seq<int>, ws: seq<int>)
    requires p > 0 && |ws| == |xs| && Eval(Residual(c, xs, ws), 0) % p == 0
    ensures WeightedSum(xs, ws, |xs|, 0) % p == Eval(c, 0) % p
  {
    var l := Interpolant(xs, ws, |xs|);
    InterpolantEval(xs, ws, |xs|, 0);
    EvalDifference(c, l, 0);
    SameModulo(p, Eval(Residual(c, xs, ws), 0), Eval(c, 0), Eval(l, 0));
  }

  /** Lagrange interpolation at 0: if f has at most |xs| coefficients and
      each weight satisfies ws[i] * (product of xs[i] - xs[j], j != i) == ys[i]
      == f(xs[i]) modulo p, the weighted sum of the basis numerators at 0
      is f(0) modulo p. */
  lemma LagrangeAtZero(p: int, c: seq<int>, xs: seq<int>, ws: seq<int>)
    requires Prime(p) && DistinctMod(p, xs) && |c| <= |xs| && |ws| == |xs|
    requires forall k :: 0 <= k < |xs| ==>
      (ws[k] * ProdExcept(xs, k, |xs|, xs[k])) % p == Eval(c, xs[k]) % p
    ensures WeightedSum(xs, ws, |xs|, 0) % p == Eval(c, 0) % p
  {
    ResidualVanishes(p, c, xs, ws);
    InterpolantLength(xs, ws, |xs|);
    VanishAtZero(p, Residual(c, xs, ws), xs);
    ResidualAtZero(p, c, xs, ws);
  }
}

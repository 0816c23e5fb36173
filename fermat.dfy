/** Why `mod_inv` is an inverse: Euclid's lemma and Fermat's little
    theorem for a prime modulus, proved by the classical argument that
    multiplying 1, ..., p-1 by a unit permutes them. */
module Fermat {
  import opened Field

  // ---------------------------------------------------------------------
  // Euclid's lemma.
  // ---------------------------------------------------------------------

  lemma {:induction false} EuclidReduced(p: int, a: int, b: int)
    requires Prime(p) && 0 < a < p && 0 < b < p
    ensures (a * b) % p != 0
    decreases b
  {
    if (a * b) % p == 0 {
      var q, r := p / b, p % b;
      assert p == q * b + r;
      if r == 0 {
        assert b == 1;
        DivModUnique(a * b, p, 0, a);
      } else {
        EuclidReduced(p, a, r);
        var k := (a * b) / p;
        assert a * b == k * p;
        assert a * r == a * p - q * (a * b) by {
          assert a * r == a * (p - q * b);
        }
        assert a * r == (a - q * k) * p + 0;
        DivModUnique(a * r, p, a - q * k, 0);
      }
    }
  }

  /** A prime divides a product only if it divides a factor. */
  lemma Euclid(p: int, a: int, b: int)
    requires Prime(p) && a % p != 0 && b % p != 0
    ensures (a * b) % p != 0
  {
    MulMod(a, b, p);
    EuclidReduced(p, a % p, b % p);
  }

  // ---------------------------------------------------------------------
  // Products of sequences.
  // ---------------------------------------------------------------------

  function Prod(s: seq<int>): int
  {
    if s == [] then 1 else Prod(s[..|s| - 1]) * s[|s| - 1]
  }

  lemma {:induction false} ProdConcat(s: seq<int>, t: seq<int>)
    ensures Prod(s + t) == Prod(s) * Prod(t)
    decreases |t|
  {
    if t == [] {
      assert s + t == s;
    } else {
      var t' := t[..|t| - 1];
      assert (s + t)[..|s + t| - 1] == s + t';
      ProdConcat(s, t');
      assert Prod(s + t) == Prod(s) * Prod(t') * t[|t| - 1];
    }
  }

  lemma ProdSingle(x: int)
    ensures Prod([x]) == x
  {
    assert [x][..0] == [];
  }

  lemma MulRegroup(u: int, x: int, v: int, uv: int, w: int)
    requires w == (u * x) * v && uv == u * v
    ensures w == uv * x
  {
  }

  lemma ProdAround(a: seq<int>, x: int, b: seq<int>)
    ensures Prod(a + [x] + b) == (Prod(a) * x) * Prod(b)
  {
    ProdConcat(a + [x], b);
    ProdConcat(a, [x]);
    ProdSingle(x);
  }

  lemma SplitAround(t: seq<int>, j: int)
    requires 0 <= j < |t|
    ensures t == t[..j] + [t[j]] + t[j + 1..]
  {
  }

  /** Taking one factor out of a product. */
  lemma ProdRemove(t: seq<int>, j: int)
    requires 0 <= j < |t|
    ensures Prod(t) == Prod(t[..j] + t[j + 1..]) * t[j]
  {
    var x, a, b := t[j], t[..j], t[j + 1..];
    SplitAround(t, j);
    ProdAround(a, x, b);
    ProdConcat(a, b);
    MulRegroup(Prod(a), x, Prod(b), Prod(a + b), Prod(t));
  }

  lemma MultisetRemove(t: seq<int>, j: int)
    requires 0 <= j < |t|
    ensures multiset(t[..j] + t[j + 1..]) == multiset(t) - multiset{t[j]}
  {
    assert t == t[..j] + [t[j]] + t[j + 1..];
  }

  lemma MultisetDropLast(s: seq<int>)
    requires s != []
    ensures multiset(s[..|s| - 1]) == multiset(s) - multiset{s[|s| - 1]}
  {
    assert s == s[..|s| - 1] + [s[|s| - 1]];
  }

  /** The last element of s occurs in t, and removing both leaves equal
      multisets. */
  lemma MatchLast(s: seq<int>, t: seq<int>) returns (j: int)
    requires multiset(s) == multiset(t) && s != []
    ensures 0 <= j < |t| && t[j] == s[|s| - 1]
    ensures multiset(s[..|s| - 1]) == multiset(t[..j] + t[j + 1..])
  {
    var x := s[|s| - 1];
    assert x in multiset(s);
    assert x in t;
    j :| 0 <= j < |t| && t[j] == x;
    MultisetRemove(t, j);
    MultisetDropLast(s);
  }

  /** The product does not depend on the order of the factors. */
  lemma {:induction false} ProdPermutation(s: seq<int>, t: seq<int>)
    requires multiset(s) == multiset(t)
    ensures Prod(s) == Prod(t)
    decreases |s|
  {
    if s == [] {
      assert |t| == |multiset(t)| == 0;
    } else {
      var j := MatchLast(s, t);
      ProdPermutation(s[..|s| - 1], t[..j] + t[j + 1..]);
      ProdRemove(t, j);
    }
  }

  // ---------------------------------------------------------------------
  // The residues a*1, ..., a*k modulo p, and 1, ..., k.
  // ---------------------------------------------------------------------

  function Upto(k: nat): (r: seq<int>)
    ensures |r| == k
  {
    if k == 0 then [] else Upto(k - 1) + [k]
  }

  function Residues(p: int, a: int, k: nat): (r: seq<int>)
    requires p > 0
    ensures |r| == k
  {
    if k == 0 then [] else Residues(p, a, k - 1) + [(a * k) % p]
  }

  lemma {:induction false} UptoAt(k: nat, i: int)
    requires 0 <= i < k
    ensures Upto(k)[i] == i + 1
    decreases k
  {
    if i < k - 1 {
      UptoAt(k - 1, i);
    }
  }

  lemma {:induction false} ResiduesAt(p: int, a: int, k: nat, i: int)
    requires p > 0 && 0 <= i < k
    ensures Residues(p, a, k)[i] == (a * (i + 1)) % p
    decreases k
  {
    if i < k - 1 {
      ResiduesAt(p, a, k - 1, i);
    }
  }

  /** (p-1)! is not divisible by p. */
  lemma {:induction false} FactorialUnit(p: int, k: nat)
    requires Prime(p) && k < p
    ensures Prod(Upto(k)) % p != 0
    decreases k
  {
    if k == 0 {
      DivModUnique(1, p, 0, 1);
    } else {
      FactorialUnit(p, k - 1);
      DivModUnique(k, p, 0, k);
      Euclid(p, Prod(Upto(k - 1)), k);
    }
  }

  lemma Rearrange4(a: int, u: int, v: int, k: int)
    ensures (a * u) * (v * k) == (u * v) * (a * k)
  {
    assert (a * u) * (v * k) == a * (u * (v * k));
    assert u * (v * k) == (u * v) * k;
  }

  /** The product of the residues is a^k * k! modulo p. */
  lemma {:induction false} ProdResidues(p: int, a: int, k: nat)
    requires p > 0
    ensures Prod(Residues(p, a, k)) % p == (Pow(a, k) * Prod(Upto(k))) % p
    decreases k
  {
    if k > 0 {
      ProdResidues(p, a, k - 1);
      var u, v := Pow(a, k - 1), Prod(Upto(k - 1));
      var x, y := Prod(Residues(p, a, k - 1)), u * v;
      assert Prod(Residues(p, a, k)) == x * ((a * k) % p);
      ModMod(a * k, p);
      MulCongruent(x, (a * k) % p, y, a * k, p);
      assert Pow(a, k) == a * u;
      assert Prod(Upto(k)) == v * k;
      Rearrange4(a, u, v, k);
    }
  }

  predicate Distinct(s: seq<int>)
  {
    forall i, j :: 0 <= i < j < |s| ==> s[i] != s[j]
  }

  function Elements(s: seq<int>): set<int>
  {
    set x | x in s
  }

  lemma {:induction false} DistinctCard(s: seq<int>)
    requires Distinct(s)
    ensures |Elements(s)| == |s|
    decreases |s|
  {
    if s != [] {
      var s' := s[..|s| - 1];
      DistinctCard(s');
      assert Elements(s) == Elements(s') + {s[|s| - 1]};
      assert s[|s| - 1] !in Elements(s');
    }
  }

  lemma {:induction false} DistinctMultiset(s: seq<int>, y: int)
    requires Distinct(s)
    ensures multiset(s)[y] == if y in s then 1 else 0
    decreases |s|
  {
    if s != [] {
      var s' := s[..|s| - 1];
      assert s == s' + [s[|s| - 1]];
      DistinctMultiset(s', y);
    }
  }

  lemma SubsetSameCard(a: set<int>, b: set<int>)
    requires a <= b && |a| == |b|
    ensures a == b
  {
    assert a * b == a;
    assert |b - a| == 0;
  }

  /** Two duplicate-free sequences with the same elements are permutations
      of each other. */
  lemma SameElementsPermutation(s: seq<int>, t: seq<int>)
    requires Distinct(s) && Distinct(t) && Elements(s) == Elements(t)
    ensures multiset(s) == multiset(t)
  {
    forall y ensures multiset(s)[y] == multiset(t)[y] {
      DistinctMultiset(s, y);
      DistinctMultiset(t, y);
      assert y in s <==> y in Elements(s);
      assert y in t <==> y in Elements(t);
    }
  }

  lemma UptoDistinct(n: nat)
    ensures Distinct(Upto(n))
  {
    forall i, j | 0 <= i < j < n ensures Upto(n)[i] != Upto(n)[j] {
      UptoAt(n, i);
      UptoAt(n, j);
    }
  }

  lemma ResidueUnit(p: int, a: int, k: int)
    requires Prime(p) && a % p != 0 && 0 < k < p
    ensures (a * k) % p != 0
  {
    DivModUnique(k, p, 0, k);
    Euclid(p, a, k);
  }

  lemma Distribute(a: int, i: int, j: int)
    ensures a * (j + 1) - a * (i + 1) == a * (j - i)
  {
  }

  lemma ResiduesDiffer(p: int, a: int, i: int, j: int)
    requires Prime(p) && a % p != 0 && 0 < i < j < p
    ensures (a * i) % p != (a * j) % p
  {
    ResidueUnit(p, a, j - i);
    Distribute(a, i - 1, j - 1);
    CongruentDiff(a * j, a * i, p);
  }

  lemma ResiduesDistinct(p: int, a: int)
    requires Prime(p) && a % p != 0
    ensures Distinct(Residues(p, a, p - 1))
  {
    var n := p - 1;
    var r := Residues(p, a, n);
    forall i, j | 0 <= i < j < n ensures r[i] != r[j] {
      ResiduesAt(p, a, n, i);
      ResiduesAt(p, a, n, j);
      ResiduesDiffer(p, a, i + 1, j + 1);
    }
  }

  lemma ResiduesInRange(p: int, a: int)
    requires Prime(p) && a % p != 0
    ensures Elements(Residues(p, a, p - 1)) <= Elements(Upto(p - 1))
  {
    var n := p - 1;
    var r := Residues(p, a, n);
    forall x | x in Elements(r) ensures x in Elements(Upto(n)) {
      var i :| 0 <= i < n && r[i] == x;
      ResiduesAt(p, a, n, i);
      ResidueUnit(p, a, i + 1);
      UptoAt(n, x - 1);
    }
  }

  /** Multiplying 1, ..., p-1 by a unit permutes them modulo p. */
  lemma ResiduesPermute(p: int, a: int)
    requires Prime(p) && a % p != 0
    ensures multiset(Residues(p, a, p - 1)) == multiset(Upto(p - 1))
  {
    var r, u := Residues(p, a, p - 1), Upto(p - 1);
    ResiduesDistinct(p, a);
    UptoDistinct(p - 1);
    ResiduesInRange(p, a);
    DistinctCard(r);
    DistinctCard(u);
    SubsetSameCard(Elements(r), Elements(u));
    SameElementsPermutation(r, u);
  }

  /** A unit can be cancelled from both sides of a congruence. */
  lemma EuclidZero(p: int, a: int, b: int)
    requires Prime(p) && (a * b) % p == 0 && b % p != 0
    ensures a % p == 0
  {
    if a % p != 0 {
      Euclid(p, a, b);
    }
  }

  lemma CancelUnit(p: int, x: int, f: int)
    requires Prime(p) && f % p != 0 && (x * f) % p == f % p
    ensures x % p == 1
  {
    var y := x - 1;
    assert y * f == x * f - f;
    CongruentDiff(x * f, f, p);
    EuclidZero(p, y, f);
    CongruentDiff(x, 1, p);
    DivModUnique(1, p, 0, 1);
  }

  /** Fermat's little theorem. */
  lemma FermatLittle(p: int, a: int)
    requires Prime(p) && a % p != 0
    ensures Pow(a, p - 1) % p == 1
  {
    ResiduesPermute(p, a);
    ProdPermutation(Residues(p, a, p - 1), Upto(p - 1));
    ProdResidues(p, a, p - 1);
    FactorialUnit(p, p - 1);
    CancelUnit(p, Pow(a, p - 1), Prod(Upto(p - 1)));
  }

  /** For a prime p, `mod_inv` of a non-multiple of p is its inverse. */
  lemma InvIsInverse(p: u64, a: u64)
    requires Prime(p) && a % p != 0
    ensures (a * Inv(p, a)) % p == 1
  {
    var a' := a % p;
    ModMod(a, p);
    FermatLittle(p, a');
    PowAdd(a', 1, p - 2);
    assert Pow(a', 1) == a';
    ModMod(Pow(a', p - 2), p);
    MulCongruent(a, Inv(p, a), a', Pow(a', p - 2), p);
  }

  /** Only a non-multiple of p can have an inverse. */
  lemma HasInverseIsUnit(p: u64, a: int, x: int)
    requires p >= 2 && (a * x) % p == 1
    ensures a % p != 0
  {
    if a % p == 0 {
      var k := a / p;
      assert a * x == (k * x) * p + 0;
      DivModUnique(a * x, p, k * x, 0);
    }
  }

  /** `mod_inv` checks only for 0: a nonzero multiple of p is accepted,
      and the value it returns (0^(p-2) mod p, which is 0 for p >= 3 and 1
      for p = 2) is not an inverse. */
  lemma MultipleGetsNoInverse(p: u64, a: u64)
    requires p >= 2 && a != 0 && a % p == 0
    ensures Inv(p, a) == if p == 2 then 1 else 0
    ensures (a * Inv(p, a)) % p != 1
  {
    if p > 2 {
      assert Pow(0, p - 2) == 0 * Pow(0, p - 3) == 0;
      DivModUnique(0, p, 0, 0);
    } else {
      DivModUnique(1, p, 0, 1);
    }
    if (a * Inv(p, a)) % p == 1 {
      HasInverseIsUnit(p, a, Inv(p, a));
    }
  }

  /** Inverses modulo a prime are unique: any x in [0, p) with a * x = 1
      is the value `mod_inv` computes. */
  lemma InverseUnique(p: u64, a: u64, x: int)
    requires Prime(p) && 0 <= x < p && (a * x) % p == 1
    ensures Inv(p, a) == x
  {
    HasInverseIsUnit(p, a, x);
    var inv := Inv(p, a);
    InvIsInverse(p, a);
    DivModUnique(1, p, 0, 1);
    DivModUnique(x, p, 0, x);
    DivModUnique(inv, p, 0, inv);
    MulCongruent(x, a * inv, x, 1, p);
    MulCongruent(inv, a * x, inv, 1, p);
    Rearrange3(x, a, inv);
  }

  lemma Rearrange3(x: int, a: int, y: int)
    ensures x * (a * y) == y * (a * x)
  {
  }
}

/** Insertion-ordered deduplication, the order in which a Python `dict`
    keeps its keys and in which `list.append` guarded by `not in` keeps
    its elements: every value once, in the order it first appears. */
module FirstAppearance {

  /** No value occurs twice. */
  predicate NoDuplicates<T(==)>(s: seq<T>)
  {
    forall i, j :: 0 <= i < j < |s| ==> s[i] != s[j]
  }

  /** The distinct values of s in order of first appearance. */
  function Distinct<T(==)>(s: seq<T>): (r: seq<T>)
    ensures |r| <= |s|
  {
    if s == [] then []
    else
      var d := Distinct(s[..|s| - 1]);
      if s[|s| - 1] in d then d else d + [s[|s| - 1]]
  }

  /** Distinct(s + [x]) appends x exactly when x is new. */
  lemma DistinctSnoc<T>(s: seq<T>, x: T)
    ensures Distinct(s + [x]) == if x in Distinct(s) then Distinct(s) else Distinct(s) + [x]
  {
    assert (s + [x])[..|s|] == s;
  }

  /** The result holds every value of s once and nothing else. */
  lemma {:induction false} DistinctElements<T>(s: seq<T>)
    ensures NoDuplicates(Distinct(s))
    ensures forall x :: x in Distinct(s) <==> x in s
  {
    if s != [] {
      var p := s[..|s| - 1];
      DistinctElements(p);
      assert s == p + [s[|s| - 1]];
    }
  }

  /** The index at which x first occurs in s. */
  function FirstIndex<T(==)>(s: seq<T>, x: T): (r: nat)
    requires x in s
    ensures r < |s| && s[r] == x && x !in s[..r]
  {
    if s[0] == x then 0 else
      assert x in s[1..];
      var k := FirstIndex(s[1..], x);
      assert s[..k + 1] == [s[0]] + s[1..][..k];
      1 + k
  }

  /** The first occurrence is the one with no occurrence before it. */
  lemma {:induction false} FirstIndexUnique<T>(s: seq<T>, x: T, k: nat)
    requires k < |s| && s[k] == x && x !in s[..k]
    ensures FirstIndex(s, x) == k
  {
    if k > 0 {
      assert s[0] != x by {
        assert s[..k][0] == s[0];
      }
      assert s[1..][..k - 1] == s[1..k] && s[..k] == [s[0]] + s[1..k];
      FirstIndexUnique(s[1..], x, k - 1);
    }
  }

  /** Appending does not move the first occurrence of a value already
      present. */
  lemma FirstIndexSnoc<T>(s: seq<T>, x: T, y: T)
    requires y in s
    ensures FirstIndex(s + [x], y) == FirstIndex(s, y)
  {
    var j := FirstIndex(s, y);
    assert (s + [x])[..j] == s[..j];
    FirstIndexUnique(s + [x], y, j);
  }

  /** The values come out in the order of their first occurrences. */
  lemma {:induction false} DistinctKeepsFirstAppearanceOrder<T>(s: seq<T>)
    ensures forall x :: x in Distinct(s) ==> x in s
    ensures forall i, j :: 0 <= i < j < |Distinct(s)| ==>
      FirstIndex(s, Distinct(s)[i]) < FirstIndex(s, Distinct(s)[j])
  {
    DistinctElements(s);
    if s != [] {
      var p, x := s[..|s| - 1], s[|s| - 1];
      assert s == p + [x];
      DistinctKeepsFirstAppearanceOrder(p);
      DistinctElements(p);
      var d := Distinct(p);
      forall y | y in d
        ensures FirstIndex(s, y) == FirstIndex(p, y)
      {
        FirstIndexSnoc(p, x, y);
      }
      if x !in d {
        forall i | 0 <= i < |d|
          ensures FirstIndex(s, d[i]) < FirstIndex(s, x)
        {
          assert x !in p;
          assert FirstIndex(s, x) == |p| by {
            assert s[..|p|] == p;
          }
        }
      }
    }
  }

  /** How many times x occurs in s. */
  function Count<T(==)>(s: seq<T>, x: T): (r: nat)
    ensures r <= |s|
    ensures r > 0 <==> x in s
  {
    if s == [] then 0
    else Count(s[..|s| - 1], x) + (if s[|s| - 1] == x then 1 else 0)
  }

  /** The occurrences in s of the values listed in ks, added up. */
  function CountAll<T(==)>(s: seq<T>, ks: seq<T>): nat
  {
    if ks == [] then 0 else CountAll(s, ks[..|ks| - 1]) + Count(s, ks[|ks| - 1])
  }

  lemma {:induction false} CountAllSnoc<T>(s: seq<T>, x: T, ks: seq<T>)
    requires NoDuplicates(ks)
    ensures CountAll(s + [x], ks) == CountAll(s, ks) + (if x in ks then 1 else 0)
  {
    assert (s + [x])[..|s|] == s;
    if ks != [] {
      var q := ks[..|ks| - 1];
      assert ks == q + [ks[|ks| - 1]];
      CountAllSnoc(s, x, q);
    }
  }

  /** Every value counted once: the counts of the distinct values add up
      to the length of s. */
  lemma {:induction false} DistinctCountsAddUp<T>(s: seq<T>)
    ensures CountAll(s, Distinct(s)) == |s|
  {
    if s != [] {
      var p, x := s[..|s| - 1], s[|s| - 1];
      assert s == p + [x];
      DistinctCountsAddUp(p);
      DistinctElements(p);
      var d := Distinct(p);
      CountAllSnoc(p, x, d);
      if x !in d {
        assert (d + [x])[..|d|] == d;
        assert Count(p, x) == 0;
      }
    }
  }
}

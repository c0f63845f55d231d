/** Small facts about sequences and finite sets shared by the other modules. */
module Seqs {

  /** No value occurs twice in `s`. */
  predicate Distinct<T(==)>(s: seq<T>) {
    forall i, j :: 0 <= i < j < |s| ==> s[i] != s[j]
  }

  /** The set of values occurring in `s`. */
  function Elems<T>(s: seq<T>): set<T> {
    set x | x in s
  }

  function Min(a: int, b: int): int {
    if a <= b then a else b
  }

  /** Concatenating two duplicate-free sequences with no common value gives a duplicate-free sequence. */
  lemma DistinctConcat<T>(a: seq<T>, b: seq<T>)
    requires Distinct(a) && Distinct(b)
    requires forall x :: x in b ==> x !in a
    ensures Distinct(a + b)
  {
    forall i, j | 0 <= i < j < |a + b|
      ensures (a + b)[i] != (a + b)[j]
    {
      if j >= |a| && i < |a| {
        assert (a + b)[j] == b[j - |a|];
        assert (a + b)[j] in b;
      }
    }
  }

  /** A duplicate-free sequence has as many values as positions. */
  lemma {:induction false} DistinctCard<T>(s: seq<T>)
    requires Distinct(s)
    ensures |Elems(s)| == |s|
  {
    if s != [] {
      var p := s[..|s| - 1];
      var last := s[|s| - 1];
      assert Distinct(p);
      DistinctCard(p);
      assert last !in p by {
        forall i | 0 <= i < |p|
          ensures p[i] != last
        {
          assert s[i] == p[i];
        }
      }
      assert s == p + [last];
      assert Elems(s) == Elems(p) + {last};
    }
  }

  /** A subset is no larger than its superset, and equal cardinality forces equality. */
  lemma SubsetCard<T>(a: set<T>, b: set<T>)
    requires a <= b
    ensures |a| <= |b|
    ensures |a| == |b| ==> a == b
    ensures |b - a| == |b| - |a|
  {
    assert a + (b - a) == b;
    assert a !! (b - a);
  }

  /** Any duplicate-free sequence of values drawn from `b` has at most `|b|` positions. */
  lemma DistinctWithin<T>(s: seq<T>, b: set<T>)
    requires Distinct(s)
    requires forall x :: x in s ==> x in b
    ensures |s| <= |b|
  {
    DistinctCard(s);
    SubsetCard(Elems(s), b);
  }
}

/** Integer sequences used as orders: `std::iota` ranges and their permutations. */
module Sequences {

  /** The sequence 0, 1, ..., n-1, as `std::iota` fills it. */
  function Iota(n: nat): (r: seq<int>)
    ensures |r| == n && forall i :: 0 <= i < n ==> r[i] == i
  {
    seq(n, i => i)
  }

  /** No value occurs twice. */
  ghost predicate Distinct(s: seq<int>)
  {
    forall i, j :: 0 <= i < j < |s| ==> s[i] != s[j]
  }

  lemma {:induction false} DistinctCount(s: seq<int>, x: int)
    requires Distinct(s)
    ensures multiset(s)[x] <= 1
    decreases |s|
  {
    if s != [] {
      var s' := s[..|s| - 1];
      assert s == s' + [s[|s| - 1]];
      assert Distinct(s');
      DistinctCount(s', x);
      assert forall i :: 0 <= i < |s'| ==> s'[i] == s[i];
      assert s[|s| - 1] !in s';
    }
  }

  lemma DuplicateCount(s: seq<int>, i: int, j: int)
    requires 0 <= i < j < |s| && s[i] == s[j]
    ensures multiset(s)[s[i]] >= 2
  {
    assert s == s[..i] + [s[i]] + s[i + 1..j] + [s[j]] + s[j + 1..];
  }

  /**
   * A shuffle of `iota(n)` lists every vertex of 0..n-1 exactly once: it is an
   * order of the range and nothing else.
   */
  lemma PermutationOfIota(r: seq<int>, n: nat)
    requires multiset(r) == multiset(Iota(n))
    ensures |r| == n
    ensures forall i :: 0 <= i < |r| ==> 0 <= r[i] < n
    ensures Distinct(r)
    ensures forall x :: 0 <= x < n ==> x in r
  {
    assert |r| == |multiset(r)| == |multiset(Iota(n))| == n;
    forall i | 0 <= i < |r| ensures 0 <= r[i] < n {
      assert r[i] in multiset(r);
      assert r[i] in Iota(n);
    }
    forall x | 0 <= x < n ensures x in r {
      assert Iota(n)[x] == x;
      assert x in multiset(Iota(n));
    }
    forall i, j | 0 <= i < j < |r| ensures r[i] != r[j] {
      if r[i] == r[j] {
        DuplicateCount(r, i, j);
        DistinctCount(Iota(n), r[i]);
      }
    }
  }

  /** A reordering keeps the same members. */
  lemma SameMembers<T>(a: seq<T>, b: seq<T>)
    requires multiset(a) == multiset(b)
    ensures forall x :: x in a <==> x in b
  {
    forall x ensures x in a <==> x in b {
      assert x in a <==> x in multiset(a);
      assert x in b <==> x in multiset(b);
    }
  }
}

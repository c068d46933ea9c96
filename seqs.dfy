/** Small facts about sequences used throughout the model. */
module Seqs {

  /** No element occurs twice. */
  predicate Distinct<T(==)>(s: seq<T>) {
    forall i, j :: 0 <= i < j < |s| ==> s[i] != s[j]
  }

  /** The elements of a sequence, as a set. */
  function Elements<T>(s: seq<T>): set<T> {
    set x | x in s
  }

  /** Appending a new element keeps a sequence free of repetitions. */
  lemma DistinctSnoc<T>(s: seq<T>, x: T)
    requires Distinct(s) && x !in s
    ensures Distinct(s + [x])
  {
  }

  /** Without its last element, a sequence without repetitions has none
      and no longer holds that element. */
  lemma DistinctInit<T>(s: seq<T>)
    requires Distinct(s) && s != []
    ensures Distinct(s[..|s| - 1]) && s[|s| - 1] !in s[..|s| - 1]
  {
  }

  /** Appending all but the last element and then the last appends all. */
  lemma AppendLast<T>(s: seq<T>, t: seq<T>)
    requires t != []
    ensures (s + t[..|t| - 1]) + [t[|t| - 1]] == s + t
  {
    assert t == t[..|t| - 1] + [t[|t| - 1]];
  }

  /** A sequence is the concatenation of its pieces between cut points. */
  lemma JoinSlices<T>(s: seq<T>, i: nat, j: nat, k: nat, l: nat)
    requires i <= j <= k <= l <= |s|
    ensures s == s[..i] + s[i..j] + s[j..k] + s[k..l] + s[l..]
  {
    assert s[..j] == s[..i] + s[i..j];
    assert s[..k] == s[..j] + s[j..k];
    assert s[..l] == s[..k] + s[k..l];
  }

  /** A sequence without repetitions has as many elements as its set. */
  lemma {:induction false} DistinctCardinality<T>(s: seq<T>)
    requires Distinct(s)
    ensures |Elements(s)| == |s|
  {
    if s != [] {
      var t := s[..|s| - 1];
      assert Distinct(t);
      DistinctCardinality(t);
      assert Elements(s) == Elements(t) + {s[|s| - 1]};
      assert s[|s| - 1] !in Elements(t);
    }
  }

  /** In a sequence without repetitions every element occurs exactly once. */
  lemma {:induction false} DistinctOccursOnce<T>(s: seq<T>, x: T)
    requires Distinct(s) && x in s
    ensures multiset(s)[x] == 1
  {
    var t := s[..|s| - 1];
    assert s == t + [s[|s| - 1]];
    assert Distinct(t);
    if x == s[|s| - 1] {
      assert x !in t;
    } else {
      DistinctOccursOnce(t, x);
    }
  }

  /** A sequence in which every element occurs once has no repetitions. */
  lemma {:induction false} OccursOnceDistinct<T>(s: seq<T>)
    requires forall x :: x in s ==> multiset(s)[x] == 1
    ensures Distinct(s)
  {
    forall i, j | 0 <= i < j < |s| ensures s[i] != s[j] {
      assert s == s[..j] + s[j..];
      assert multiset(s)[s[j]] == multiset(s[..j])[s[j]] + multiset(s[j..])[s[j]];
      assert s[i] in s[..j] && s[j] in s[j..];
    }
  }
}

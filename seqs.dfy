/** Sequences of identifiers used as sets: duplicate-freedom and set difference
    that keeps the order of the left operand. */
module Seqs {

  /** No element occurs twice. */
  predicate Distinct<T(==)>(s: seq<T>) {
    forall i, j :: 0 <= i < j < |s| ==> s[i] != s[j]
  }

  /** The elements of `s` that do not occur in `t`, in the order they have in `s`. */
  function Difference(s: seq<string>, t: seq<string>): (r: seq<string>)
    ensures forall x :: x in r <==> x in s && x !in t
    ensures |r| <= |s|
    decreases |s|
  {
    if s == [] then []
    else
      var init := Difference(s[..|s| - 1], t);
      var last := s[|s| - 1];
      if last in t then init else init + [last]
  }

  /** Difference keeps each element once. */
  lemma {:induction false} DifferenceKeepsDistinct(s: seq<string>, t: seq<string>)
    requires Distinct(s)
    ensures Distinct(Difference(s, t))
    decreases |s|
  {
    if s != [] {
      var init := s[..|s| - 1];
      assert Distinct(init);
      DifferenceKeepsDistinct(init, t);
      assert s[|s| - 1] !in init;
    }
  }

  /** Difference of a sequence with one that covers it is empty. */
  lemma DifferenceCovered(s: seq<string>, t: seq<string>)
    requires forall x :: x in s ==> x in t
    ensures Difference(s, t) == []
  {
  }

  lemma DistinctConcat<T>(a: seq<T>, b: seq<T>)
    requires Distinct(a) && Distinct(b)
    requires forall i, j :: 0 <= i < |a| && 0 <= j < |b| ==> a[i] != b[j]
    ensures Distinct(a + b)
  {
  }
}

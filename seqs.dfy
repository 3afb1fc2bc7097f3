/** Sequence notions shared by the dedup and the grouping: no repeats, first occurrences. */
module Seqs {

  predicate Unique<T(==)>(s: seq<T>) {
    forall i, j :: 0 <= i < j < |s| ==> s[i] != s[j]
  }

  /** The index of the first `x` in `s`. */
  function FirstIndex<T(==)>(s: seq<T>, x: T): (k: nat)
    requires x in s
    ensures k < |s| && s[k] == x && x !in s[..k]
  {
    var n := |s| - 1;
    if x in s[..n] then
      var k := FirstIndex(s[..n], x);
      assert s[..n][..k] == s[..k];
      k
    else
      assert s == s[..n] + [s[n]];
      n
  }

  /**
   * The elements of `s` with repeats dropped, each kept where it first
   * appears: what the keys of an insertion-ordered JavaScript `Map` or
   * object are after inserting `s` in order.
   */
  function Distinct<T(==,!new)>(s: seq<T>): (r: seq<T>)
    ensures Unique(r)
    ensures forall x :: x in r <==> x in s
  {
    if s == [] then []
    else
      var d := Distinct(s[..|s| - 1]);
      assert forall x :: x in s <==> x in s[..|s| - 1] || x == s[|s| - 1];
      if s[|s| - 1] in d then d else d + [s[|s| - 1]]
  }

  /** The elements of `Distinct(s)` stand in the order of their first occurrences in `s`. */
  lemma {:induction false} DistinctFirstOrder<T(!new)>(s: seq<T>, i: nat, j: nat)
    requires i < j < |Distinct(s)|
    ensures FirstIndex(s, Distinct(s)[i]) < FirstIndex(s, Distinct(s)[j])
  {
    var n := |s| - 1;
    var p := s[..n];
    var d := Distinct(p);
    assert forall x :: x in s <==> x in p || x == s[n];
    if s[n] in d {
      FirstIndexOfPrefix(s, n, Distinct(s)[i]);
      FirstIndexOfPrefix(s, n, Distinct(s)[j]);
      DistinctFirstOrder(p, i, j);
    } else if j < |d| {
      FirstIndexOfPrefix(s, n, Distinct(s)[i]);
      FirstIndexOfPrefix(s, n, Distinct(s)[j]);
      DistinctFirstOrder(p, i, j);
    } else {
      FirstIndexOfPrefix(s, n, Distinct(s)[i]);
      assert s[n] !in p;
      assert FirstIndex(s, s[n]) == n;
    }
  }

  /** An element that already occurs in the prefix `s[..n]` first occurs there. */
  lemma FirstIndexOfPrefix<T>(s: seq<T>, n: nat, x: T)
    requires n <= |s| && x in s[..n]
    ensures FirstIndex(s, x) == FirstIndex(s[..n], x)
  {
    var k := FirstIndex(s[..n], x);
    assert s[..n][..k] == s[..k];
  }
}

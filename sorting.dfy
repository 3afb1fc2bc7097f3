/**
 * `sortRecentFiles` (extension.js:179-183): `files.sort((a, b) =>
 * sortDescending ? b.mtime - a.mtime : a.mtime - b.mtime)`. The sort runs in
 * place and `Array.prototype.sort` is stable, so records with equal `mtime`
 * keep their relative order. The specification is a stable insertion sort
 * on sequences; any stable sort under this comparator gives the same
 * result (`StableSortIsUnique`).
 */
module Sorting {
  import opened Records

  /** The comparator is negative: `a` goes strictly before `b`. */
  predicate Before(a: FileRecord, b: FileRecord, descending: bool) {
    if descending then a.mtime > b.mtime else a.mtime < b.mtime
  }

  /** The comparator is not positive: `a` may stand before `b`. */
  predicate InOrder(a: FileRecord, b: FileRecord, descending: bool) {
    !Before(b, a, descending)
  }

  predicate Sorted(s: seq<FileRecord>, descending: bool) {
    forall i, j :: 0 <= i < j < |s| ==> InOrder(s[i], s[j], descending)
  }

  /** The records of `s` whose `mtime` is `t`, in order. */
  function WithTime(s: seq<FileRecord>, t: int): seq<FileRecord> {
    if s == [] then []
    else WithTime(s[..|s| - 1], t) + (if s[|s| - 1].mtime == t then [s[|s| - 1]] else [])
  }

  /** `r` orders the records of each `mtime` as `s` does: what stability promises. */
  ghost predicate SameTies(r: seq<FileRecord>, s: seq<FileRecord>) {
    forall t :: WithTime(r, t) == WithTime(s, t)
  }

  /** Insert `x` into the sorted `p`, after every record it does not strictly precede. */
  function Insert(p: seq<FileRecord>, x: FileRecord, descending: bool): seq<FileRecord> {
    if p == [] then [x]
    else if Before(x, p[|p| - 1], descending) then Insert(p[..|p| - 1], x, descending) + [p[|p| - 1]]
    else p + [x]
  }

  /** The specification of the sort: insert the records one by one, in order. */
  function SortSpec(s: seq<FileRecord>, descending: bool): seq<FileRecord> {
    if s == [] then []
    else Insert(SortSpec(s[..|s| - 1], descending), s[|s| - 1], descending)
  }

  // ---------------------------------------------------------------------
  // The in-place sort
  // ---------------------------------------------------------------------

  /** `files.sort(...)` on an array, in place. */
  method SortRecentFiles(a: array<FileRecord>, descending: bool)
    modifies a
    ensures a[..] == SortSpec(old(a[..]), descending)
  {
    ghost var input := a[..];
    var i := 0;
    while i < a.Length
      invariant 0 <= i <= a.Length
      invariant a[..i] == SortSpec(input[..i], descending)
      invariant a[i..] == input[i..]
    {
      ghost var done, x := a[..i], a[i];
      assert a[i..][0] == x && a[i..][1..] == a[i + 1..];
      assert input[i..][0] == input[i] && input[i..][1..] == input[i + 1..];
      assert input[..i + 1][..i] == input[..i];
      assert SortSpec(input[..i + 1], descending) == Insert(done, x, descending);
      InsertNext(a, i, descending);
      i := i + 1;
    }
    assert a[..] == a[..a.Length];
    assert input[..a.Length] == input;
  }

  /** `sortRecentFiles` on a list held as a sequence: copy it into an array, sort that in place, read it back. */
  method SortSeq(s: seq<FileRecord>, descending: bool) returns (r: seq<FileRecord>)
    ensures r == SortSpec(s, descending)
  {
    var a := new FileRecord[|s|](i requires 0 <= i < |s| => s[i]);
    assert a[..] == s;
    SortRecentFiles(a, descending);
    r := a[..];
  }

  /** One pass of the inner loop: move `a[i]` left into the sorted prefix `a[..i]`. */
  method InsertNext(a: array<FileRecord>, i: nat, descending: bool)
    requires i < a.Length
    modifies a
    ensures a[..i + 1] == Insert(old(a[..i]), old(a[i]), descending)
    ensures a[i + 1..] == old(a[i + 1..])
  {
    ghost var done := a[..i];
    ghost var rest := a[i + 1..];
    var x := a[i];
    var j := i;
    while j > 0 && Before(x, a[j - 1], descending)
      invariant 0 <= j <= i
      invariant a[..j] == done[..j]
      invariant a[j + 1..i + 1] == done[j..]
      invariant forall k :: j <= k < i ==> Before(x, done[k], descending)
      invariant a[i + 1..] == rest
    {
      a[j] := a[j - 1];
      j := j - 1;
    }
    a[j] := x;
    InsertAt(done, x, descending, j);
    assert a[..i + 1] == a[..j] + [x] + a[j + 1..i + 1];
  }

  /** Inserting at the place where the inner loop stops is `Insert`. */
  lemma {:induction false} InsertAt(p: seq<FileRecord>, x: FileRecord, descending: bool, j: nat)
    requires j <= |p|
    requires forall k :: j <= k < |p| ==> Before(x, p[k], descending)
    requires j == 0 || !Before(x, p[j - 1], descending)
    ensures Insert(p, x, descending) == p[..j] + [x] + p[j..]
    decreases |p|
  {
    if j == |p| {
      assert p[..j] == p && p[j..] == [];
    } else {
      var n := |p| - 1;
      InsertAt(p[..n], x, descending, j);
      assert p[..n][..j] == p[..j];
      assert p[j..] == p[j..n] + [p[n]];
    }
  }

  // ---------------------------------------------------------------------
  // Permutation
  // ---------------------------------------------------------------------

  lemma {:induction false} InsertPermutes(p: seq<FileRecord>, x: FileRecord, descending: bool)
    ensures multiset(Insert(p, x, descending)) == multiset(p) + multiset{x}
    decreases |p|
  {
    if p != [] && Before(x, p[|p| - 1], descending) {
      var n := |p| - 1;
      InsertPermutes(p[..n], x, descending);
      assert p == p[..n] + [p[n]];
    }
  }

  /** The sort rearranges its input: the result is a permutation of it. */
  lemma {:induction false} SortPermutes(s: seq<FileRecord>, descending: bool)
    ensures multiset(SortSpec(s, descending)) == multiset(s)
    decreases |s|
  {
    if s != [] {
      var n := |s| - 1;
      SortPermutes(s[..n], descending);
      InsertPermutes(SortSpec(s[..n], descending), s[n], descending);
      assert s == s[..n] + [s[n]];
    }
  }

  // ---------------------------------------------------------------------
  // Order
  // ---------------------------------------------------------------------

  lemma SortedSnoc(p: seq<FileRecord>, z: FileRecord, descending: bool)
    requires Sorted(p, descending)
    requires forall e :: e in p ==> InOrder(e, z, descending)
    ensures Sorted(p + [z], descending)
  {
    var q := p + [z];
    forall i, j | 0 <= i < j < |q|
      ensures InOrder(q[i], q[j], descending)
    {
      if j == |p| {
        assert q[i] in p;
      }
    }
  }

  lemma {:induction false} InsertSorted(p: seq<FileRecord>, x: FileRecord, descending: bool)
    requires Sorted(p, descending)
    ensures Sorted(Insert(p, x, descending), descending)
    decreases |p|
  {
    if p != [] {
      var n := |p| - 1;
      var pre, last := p[..n], p[n];
      assert p == pre + [last];
      LastBoundsSorted(pre, last, descending);
      if Before(x, last, descending) {
        InsertSorted(pre, x, descending);
        InsertBelowLast(pre, x, last, descending);
      } else {
        SortedSnoc(p, x, descending);
      }
    }
  }

  /** In a sorted `pre + [last]`, every element of `pre` may stand before `last`, and `pre` is sorted. */
  lemma LastBoundsSorted(pre: seq<FileRecord>, last: FileRecord, descending: bool)
    requires Sorted(pre + [last], descending)
    ensures Sorted(pre, descending)
    ensures forall e :: e in pre ==> InOrder(e, last, descending)
  {
    var p := pre + [last];
    forall i, j | 0 <= i < j < |pre| ensures InOrder(pre[i], pre[j], descending) {
      assert pre[i] == p[i] && pre[j] == p[j];
    }
    forall e | e in pre ensures InOrder(e, last, descending) {
      var i :| 0 <= i < |pre| && pre[i] == e;
      assert p[i] == e && p[|pre|] == last;
    }
  }

  /** Inserting `x`, which goes before `last`, into `pre` keeps `last` at the end of a sorted list. */
  lemma InsertBelowLast(pre: seq<FileRecord>, x: FileRecord, last: FileRecord, descending: bool)
    requires Sorted(Insert(pre, x, descending), descending)
    requires forall e :: e in pre ==> InOrder(e, last, descending)
    requires Before(x, last, descending)
    ensures Sorted(Insert(pre, x, descending) + [last], descending)
  {
    var q := Insert(pre, x, descending);
    InsertPermutes(pre, x, descending);
    forall e | e in q ensures InOrder(e, last, descending) {
      assert e in multiset(q);
    }
    SortedSnoc(q, last, descending);
  }

  /** The sort orders its result: `mtime` never increases (descending) or never decreases (ascending). */
  lemma {:induction false} SortSorts(s: seq<FileRecord>, descending: bool)
    ensures Sorted(SortSpec(s, descending), descending)
    decreases |s|
  {
    if s != [] {
      var n := |s| - 1;
      SortSorts(s[..n], descending);
      InsertSorted(SortSpec(s[..n], descending), s[n], descending);
    }
  }

  /** `Sorted` is the pairwise form of the condition on neighbours. */
  lemma SortedIffAdjacent(s: seq<FileRecord>, descending: bool)
    ensures Sorted(s, descending) <==>
      forall i :: 0 <= i < |s| - 1 ==>
        if descending then s[i].mtime >= s[i + 1].mtime else s[i].mtime <= s[i + 1].mtime
  {
    if forall i :: 0 <= i < |s| - 1 ==> InOrder(s[i], s[i + 1], descending) {
      forall i, j | 0 <= i < j < |s| ensures InOrder(s[i], s[j], descending) {
        AdjacentReaches(s, descending, i, j);
      }
    }
  }

  lemma {:induction false} AdjacentReaches(s: seq<FileRecord>, descending: bool, i: nat, j: nat)
    requires i < j < |s|
    requires forall k :: 0 <= k < |s| - 1 ==> InOrder(s[k], s[k + 1], descending)
    ensures InOrder(s[i], s[j], descending)
    decreases j - i
  {
    if i + 1 < j {
      AdjacentReaches(s, descending, i + 1, j);
      assert InOrder(s[i], s[i + 1], descending);
    }
  }

  // ---------------------------------------------------------------------
  // Stability
  // ---------------------------------------------------------------------

  lemma {:induction false} WithTimeAppend(a: seq<FileRecord>, b: seq<FileRecord>, t: int)
    ensures WithTime(a + b, t) == WithTime(a, t) + WithTime(b, t)
    decreases |b|
  {
    if b == [] {
      assert a + b == a;
    } else {
      var n := |b| - 1;
      assert (a + b)[..|a + b| - 1] == a + b[..n];
      WithTimeAppend(a, b[..n], t);
    }
  }

  lemma WithTimeCons(x: FileRecord, s: seq<FileRecord>, t: int)
    ensures WithTime([x] + s, t) == (if x.mtime == t then [x] else []) + WithTime(s, t)
  {
    WithTimeAppend([x], s, t);
    assert WithTime([x], t) == WithTime([], t) + (if x.mtime == t then [x] else []);
  }

  lemma {:induction false} WithTimeMembers(s: seq<FileRecord>, t: int)
    ensures forall y :: y in WithTime(s, t) <==> y in s && y.mtime == t
    decreases |s|
  {
    if s != [] {
      var n := |s| - 1;
      WithTimeMembers(s[..n], t);
      assert s == s[..n] + [s[n]];
    }
  }

  lemma WithTimeSnoc(s: seq<FileRecord>, y: FileRecord, t: int)
    ensures WithTime(s + [y], t) == WithTime(s, t) + (if y.mtime == t then [y] else [])
  {
    assert (s + [y])[..|s|] == s;
  }

  lemma {:induction false} InsertKeepsTies(p: seq<FileRecord>, x: FileRecord, descending: bool, t: int)
    ensures WithTime(Insert(p, x, descending), t) == WithTime(p, t) + (if x.mtime == t then [x] else [])
    decreases |p|
  {
    if p == [] {
      WithTimeSnoc([], x, t);
    } else {
      var n := |p| - 1;
      var pre, last := p[..n], p[n];
      if Before(x, last, descending) {
        var q := Insert(pre, x, descending);
        assert Insert(p, x, descending) == q + [last];
        assert p == pre + [last];
        InsertKeepsTies(pre, x, descending, t);
        TiesPastLast(q, pre, x, last, t);
      } else {
        WithTimeSnoc(p, x, t);
      }
    }
  }

  /** Moving `x` past a `last` of another time does not change the order of either time's records. */
  lemma TiesPastLast(q: seq<FileRecord>, pre: seq<FileRecord>, x: FileRecord, last: FileRecord, t: int)
    requires x.mtime != last.mtime
    requires WithTime(q, t) == WithTime(pre, t) + (if x.mtime == t then [x] else [])
    ensures WithTime(q + [last], t) == WithTime(pre + [last], t) + (if x.mtime == t then [x] else [])
  {
    WithTimeSnoc(q, last, t);
    WithTimeSnoc(pre, last, t);
  }

  /** The sort is stable: records with the same `mtime` keep their input order. */
  lemma {:induction false} SortIsStable(s: seq<FileRecord>, descending: bool)
    ensures SameTies(SortSpec(s, descending), s)
    decreases |s|
  {
    if s != [] {
      var n := |s| - 1;
      SortIsStable(s[..n], descending);
      forall t ensures WithTime(SortSpec(s, descending), t) == WithTime(s, t) {
        InsertKeepsTies(SortSpec(s[..n], descending), s[n], descending, t);
      }
    }
  }

  /** Two sorted sequences that order every group of equal `mtime` alike are the same sequence. */
  lemma {:induction false} SortedSameTiesEqual(a: seq<FileRecord>, b: seq<FileRecord>, descending: bool)
    requires Sorted(a, descending) && Sorted(b, descending)
    requires SameTies(a, b)
    ensures a == b
    decreases |a|
  {
    if a == [] && b != [] {
      HeadLeadsTies(b);
    } else if a != [] && b == [] {
      HeadLeadsTies(a);
    } else if a != [] {
      SortedHeadsAgree(a, b, descending);
      SortedTail(a, descending);
      SortedTail(b, descending);
      var x, ta, tb := a[0], a[1..], b[1..];
      assert a == [x] + ta && b == [x] + tb;
      forall t ensures WithTime(ta, t) == WithTime(tb, t) {
        assert WithTime(a, t) == WithTime(b, t);
        WithTimeCons(x, ta, t);
        WithTimeCons(x, tb, t);
        var pre := if x.mtime == t then [x] else [];
        assert WithTime(ta, t) == (pre + WithTime(ta, t))[|pre|..];
        assert WithTime(tb, t) == (pre + WithTime(tb, t))[|pre|..];
      }
      SortedSameTiesEqual(a[1..], b[1..], descending);
      assert a == [a[0]] + a[1..] && b == [b[0]] + b[1..];
    }
  }

  lemma SortedTail(s: seq<FileRecord>, descending: bool)
    requires s != [] && Sorted(s, descending)
    ensures Sorted(s[1..], descending)
  {
    forall i, j | 0 <= i < j < |s| - 1 ensures InOrder(s[1..][i], s[1..][j], descending) {
      assert InOrder(s[i + 1], s[j + 1], descending);
    }
  }

  /** In a sorted sequence no record with `mtime` `t` comes strictly before the head. */
  lemma HeadBound(s: seq<FileRecord>, descending: bool, t: int)
    requires s != [] && Sorted(s, descending)
    requires WithTime(s, t) != []
    ensures if descending then t <= s[0].mtime else t >= s[0].mtime
  {
    WithTimeMembers(s, t);
    var y := WithTime(s, t)[0];
    assert y in WithTime(s, t);
    var j :| 0 <= j < |s| && s[j] == y;
    if j > 0 {
      assert InOrder(s[0], s[j], descending);
    }
  }

  lemma SortedHeadsAgree(a: seq<FileRecord>, b: seq<FileRecord>, descending: bool)
    requires a != [] && b != []
    requires Sorted(a, descending) && Sorted(b, descending)
    requires SameTies(a, b)
    ensures a[0] == b[0]
  {
    var ka, kb := a[0].mtime, b[0].mtime;
    HeadLeadsTies(a);
    HeadLeadsTies(b);
    assert WithTime(b, ka) == WithTime(a, ka);
    assert WithTime(a, kb) == WithTime(b, kb);
    HeadBound(b, descending, ka);
    HeadBound(a, descending, kb);
  }

  /** The head of a sequence is the first record of its own `mtime` group. */
  lemma HeadLeadsTies(s: seq<FileRecord>)
    requires s != []
    ensures WithTime(s, s[0].mtime) != [] && WithTime(s, s[0].mtime)[0] == s[0]
  {
    assert s == [s[0]] + s[1..];
    WithTimeCons(s[0], s[1..], s[0].mtime);
  }

  /**
   * Any stable sort under this comparator gives `SortSpec`: a sorted
   * sequence that orders every group of equal `mtime` as the input does is
   * the specification's result.
   */
  lemma StableSortIsUnique(s: seq<FileRecord>, r: seq<FileRecord>, descending: bool)
    requires Sorted(r, descending) && SameTies(r, s)
    ensures r == SortSpec(s, descending)
  {
    SortSorts(s, descending);
    SortIsStable(s, descending);
    SortedSameTiesEqual(r, SortSpec(s, descending), descending);
  }

  /** Sorting an already sorted list leaves it as it is. */
  lemma SortOfSorted(s: seq<FileRecord>, descending: bool)
    requires Sorted(s, descending)
    ensures SortSpec(s, descending) == s
  {
    StableSortIsUnique(s, s, descending);
  }

  /**
   * Re-sorting in the opposite direction and back gives what one sort in
   * the original direction gives: the order is restored.
   */
  lemma SortBackAndForth(s: seq<FileRecord>, descending: bool)
    ensures SortSpec(SortSpec(SortSpec(s, descending), !descending), descending) == SortSpec(s, descending)
  {
    var once := SortSpec(s, descending);
    var back := SortSpec(once, !descending);
    SortIsStable(s, descending);
    SortIsStable(once, !descending);
    SortIsStable(back, descending);
    SortSorts(back, descending);
    StableSortIsUnique(s, SortSpec(back, descending), descending);
  }
}

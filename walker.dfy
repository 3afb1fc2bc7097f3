/**
 * `getFilesInFolder` (extension.js:190-208): a depth-first walk that lists
 * every entry of a directory in `readdir` order, skips any entry whose name
 * is in `EXCLUDED_FOLDERS` (extension.js:17-19), descends into directories
 * and keeps every other entry's path. The file system is a finite tree: a
 * directory's listing is what `readdir` would report for it, or
 * `Unreadable` when `readdir` rejects.
 */
module TreeWalker {
  import opened Wrappers
  import opened Seqs
  import opened Paths

  /** `EXCLUDED_FOLDERS`. */
  const Excluded: seq<string> :=
    ["node_modules", "venv", "__pycache__", ".git", "target", "bin", "obj", "build", "dist"]

  /** A directory entry: one for which `isDirectory()` holds, or anything else. */
  datatype Node = File(name: string) | Directory(name: string, listing: Listing)

  /** What `readdir` gives for a directory: its entries in order, or a rejection. */
  datatype Listing = Readable(entries: seq<Node>) | Unreadable

  // ---------------------------------------------------------------------
  // The walk
  // ---------------------------------------------------------------------

  /** The value `getFilesInFolder(dir)` resolves with, or `None` when it rejects. */
  function Walk(dir: string, l: Listing): Option<seq<string>>
    decreases l, if l.Readable? then |l.entries| + 1 else 0
  {
    if l.Unreadable? then None else WalkPrefix(dir, l, |l.entries|)
  }

  /** `files` after the loop has visited the first `n` entries. */
  function WalkPrefix(dir: string, l: Listing, n: nat): Option<seq<string>>
    requires l.Readable? && n <= |l.entries|
    decreases l, n
  {
    if n == 0 then Some([])
    else
      match (WalkPrefix(dir, l, n - 1), WalkEntry(dir, l.entries[n - 1]))
      case (Some(before), Some(more)) => Some(before + more)
      case _ => None
  }

  /** What one entry adds to `files`. */
  function WalkEntry(dir: string, e: Node): Option<seq<string>>
    decreases e, 0
  {
    if e.name in Excluded then Some([])
    else
      match e
      case File(name) => Some([Join(dir, name)])
      case Directory(name, listing) => Walk(Join(dir, name), listing)
  }

  /** The loop of extension.js:194-205, with the recursive call for subdirectories. */
  method GetFilesInFolder(dir: string, l: Listing) returns (files: Option<seq<string>>)
    ensures files == Walk(dir, l)
    decreases l
  {
    if l.Unreadable? {
      return None;
    }
    var acc: seq<string> := [];
    var i := 0;
    while i < |l.entries|
      invariant 0 <= i <= |l.entries|
      invariant WalkPrefix(dir, l, i) == Some(acc)
    {
      var entry := l.entries[i];
      var entryPath := Join(dir, entry.name);
      assert l.entries[..i + 1] == l.entries[..i] + [entry];
      if entry.name !in Excluded {
        if entry.Directory? {
          var sub := GetFilesInFolder(entryPath, entry.listing);
          if sub.None? {
            FailureStays(dir, l, i + 1, |l.entries|);
            return None;
          }
          assert WalkEntry(dir, entry) == sub;
          acc := acc + sub.value;
        } else {
          assert WalkEntry(dir, entry) == Some([entryPath]);
          acc := acc + [entryPath];
        }
      } else {
        assert WalkEntry(dir, entry) == Some([]);
        assert acc + [] == acc;
      }
      i := i + 1;
    }
    files := Some(acc);
  }

  /** Once a subdirectory has failed, the walk of its parent fails whatever follows. */
  lemma {:induction false} FailureStays(dir: string, l: Listing, i: nat, n: nat)
    requires l.Readable? && i <= n <= |l.entries|
    requires WalkPrefix(dir, l, i).None?
    ensures WalkPrefix(dir, l, n).None?
    decreases n
  {
    if i < n {
      FailureStays(dir, l, i, n - 1);
    }
  }

  // ---------------------------------------------------------------------
  // The reference: the visible files and the readable tree
  // ---------------------------------------------------------------------

  /** The path `dir/c[0]/c[1]/...`. */
  function JoinAll(dir: string, c: seq<string>): string {
    if c == [] then dir else Join(JoinAll(dir, c[..|c| - 1]), c[|c| - 1])
  }

  /** The paths of a sequence of name chains under `dir`. */
  function JoinEach(dir: string, cs: seq<seq<string>>): seq<string> {
    seq(|cs|, i requires 0 <= i < |cs| => JoinAll(dir, cs[i]))
  }

  /** `cs` with `name` put in front of every chain. */
  function Under(name: string, cs: seq<seq<string>>): seq<seq<string>> {
    seq(|cs|, i requires 0 <= i < |cs| => [name] + cs[i])
  }

  /**
   * The name chains, from the listed directory down, of the entries the walk
   * keeps, in depth-first entry order. An unreadable directory holds none.
   */
  function Chains(l: Listing): seq<seq<string>>
    decreases l, if l.Readable? then |l.entries| + 1 else 0
  {
    if l.Unreadable? then [] else ChainsPrefix(l, |l.entries|)
  }

  function ChainsPrefix(l: Listing, n: nat): seq<seq<string>>
    requires l.Readable? && n <= |l.entries|
    decreases l, n
  {
    if n == 0 then [] else ChainsPrefix(l, n - 1) + EntryChains(l.entries[n - 1])
  }

  function EntryChains(e: Node): seq<seq<string>>
    decreases e, 0
  {
    if e.name in Excluded then []
    else
      match e
      case File(name) => [[name]]
      case Directory(name, listing) => Under(name, Chains(listing))
  }

  /** Every directory the walk would enter can be read. */
  predicate Openable(l: Listing)
    decreases l
  {
    l.Readable? && forall i :: 0 <= i < |l.entries| ==> EntryOpenable(l.entries[i])
  }

  /** The entry is skipped, is not a directory, or is a directory the walk can read through. */
  predicate EntryOpenable(e: Node)
    decreases e
  {
    e.name in Excluded || e.File? || Openable(e.listing)
  }

  predicate PrefixOpenable(l: Listing, n: nat)
    requires l.Readable? && n <= |l.entries|
  {
    forall i :: 0 <= i < n ==> EntryOpenable(l.entries[i])
  }

  /**
   * `c` names a kept entry: each of its names is a non-excluded entry of
   * the directory the previous names lead to, and the last one is not a
   * directory.
   */
  predicate VisibleFile(l: Listing, c: seq<string>)
    decreases l
  {
    l.Readable? && exists i :: 0 <= i < |l.entries| && VisibleIn(l.entries[i], c)
  }

  predicate VisibleIn(e: Node, c: seq<string>)
    decreases e
  {
    && c != [] && c[0] == e.name && e.name !in Excluded
    && match e
       case File(_) => |c| == 1
       case Directory(_, listing) => VisibleFile(listing, c[1..])
  }

  // ---------------------------------------------------------------------
  // The walk lists the visible files, or fails on an unreadable directory
  // ---------------------------------------------------------------------

  lemma {:induction false} JoinAllCons(dir: string, name: string, c: seq<string>)
    ensures JoinAll(dir, [name] + c) == JoinAll(Join(dir, name), c)
    decreases |c|
  {
    if c != [] {
      var n := |c| - 1;
      assert ([name] + c)[..|c|] == [name] + c[..n];
      JoinAllCons(dir, name, c[..n]);
    } else {
      assert ([name] + c)[..0] == [];
    }
  }

  lemma JoinEachUnder(dir: string, name: string, cs: seq<seq<string>>)
    ensures JoinEach(dir, Under(name, cs)) == JoinEach(Join(dir, name), cs)
  {
    forall i | 0 <= i < |cs| ensures JoinEach(dir, Under(name, cs))[i] == JoinEach(Join(dir, name), cs)[i] {
      JoinAllCons(dir, name, cs[i]);
    }
  }

  /**
   * The walk succeeds exactly when every directory it would enter is
   * readable, and then it lists the visible files' paths in depth-first
   * entry order.
   */
  lemma {:induction false} WalkListsChains(dir: string, l: Listing)
    ensures Walk(dir, l) == if Openable(l) then Some(JoinEach(dir, Chains(l))) else None
    decreases l, if l.Readable? then |l.entries| + 1 else 0
  {
    if l.Readable? {
      WalkPrefixListsChains(dir, l, |l.entries|);
    }
  }

  lemma {:induction false} WalkPrefixListsChains(dir: string, l: Listing, n: nat)
    requires l.Readable? && n <= |l.entries|
    ensures WalkPrefix(dir, l, n) ==
      if PrefixOpenable(l, n) then Some(JoinEach(dir, ChainsPrefix(l, n))) else None
    decreases l, n
  {
    if n > 0 {
      var e := l.entries[n - 1];
      WalkPrefixListsChains(dir, l, n - 1);
      WalkEntryListsChains(dir, e);
      var a, b := ChainsPrefix(l, n - 1), EntryChains(e);
      assert ChainsPrefix(l, n) == a + b;
      assert JoinEach(dir, a + b) == JoinEach(dir, a) + JoinEach(dir, b);
      if PrefixOpenable(l, n - 1) && EntryOpenable(e) {
        assert forall i :: 0 <= i < n ==> EntryOpenable(l.entries[i]) by {
          forall i | 0 <= i < n ensures EntryOpenable(l.entries[i]) {
            if i < n - 1 { assert EntryOpenable(l.entries[i]); }
          }
        }
      } else if !EntryOpenable(e) {
        assert !PrefixOpenable(l, n);
      } else {
        var i :| 0 <= i < n - 1 && !EntryOpenable(l.entries[i]);
        assert !PrefixOpenable(l, n);
      }
    } else {
      assert JoinEach(dir, []) == [];
    }
  }

  lemma {:induction false} WalkEntryListsChains(dir: string, e: Node)
    ensures WalkEntry(dir, e) == if EntryOpenable(e) then Some(JoinEach(dir, EntryChains(e))) else None
    decreases e, 0
  {
    if e.name !in Excluded {
      match e
      case File(name) =>
        assert [name][..0] == [];
        assert JoinAll(dir, [name]) == Join(dir, name);
        assert JoinEach(dir, [[name]])[0] == JoinAll(dir, [name]);
        assert JoinEach(dir, [[name]]) == [Join(dir, name)];
      case Directory(name, listing) =>
        WalkListsChains(Join(dir, name), listing);
        JoinEachUnder(dir, name, Chains(listing));
    } else {
      assert JoinEach(dir, []) == [];
    }
  }

  lemma UnderMembers(name: string, cs: seq<seq<string>>, c: seq<string>)
    ensures c in Under(name, cs) <==> c != [] && c[0] == name && c[1..] in cs
  {
    if c != [] && c[0] == name && c[1..] in cs {
      var i :| 0 <= i < |cs| && cs[i] == c[1..];
      assert Under(name, cs)[i] == c;
    }
  }

  /** A chain is listed exactly when it names a visible file. */
  lemma {:induction false} ChainsAreVisible(l: Listing, c: seq<string>)
    ensures c in Chains(l) <==> VisibleFile(l, c)
    decreases l, if l.Readable? then |l.entries| + 1 else 0
  {
    if l.Readable? {
      ChainsPrefixAreVisible(l, |l.entries|, c);
    }
  }

  lemma {:induction false} ChainsPrefixAreVisible(l: Listing, n: nat, c: seq<string>)
    requires l.Readable? && n <= |l.entries|
    ensures c in ChainsPrefix(l, n) <==> exists i :: 0 <= i < n && VisibleIn(l.entries[i], c)
    decreases l, n
  {
    if n > 0 {
      var e := l.entries[n - 1];
      ChainsPrefixAreVisible(l, n - 1, c);
      EntryChainsAreVisible(e, c);
      if exists i :: 0 <= i < n && VisibleIn(l.entries[i], c) {
        var i :| 0 <= i < n && VisibleIn(l.entries[i], c);
        if i < n - 1 {
          assert c in ChainsPrefix(l, n - 1);
        }
      }
    }
  }

  lemma {:induction false} EntryChainsAreVisible(e: Node, c: seq<string>)
    ensures c in EntryChains(e) <==> VisibleIn(e, c)
    decreases e, 0
  {
    if e.name !in Excluded {
      match e
      case File(name) =>
        if c != [] && |c| == 1 {
          assert c == [c[0]];
        }
      case Directory(name, listing) =>
        UnderMembers(name, Chains(listing), c);
        if c != [] {
          ChainsAreVisible(listing, c[1..]);
        }
    }
  }

  /** No name on a visible file's chain is excluded, the file's own name included. */
  lemma {:induction false} VisibleAvoidsExcluded(l: Listing, c: seq<string>, k: nat)
    requires VisibleFile(l, c) && k < |c|
    ensures c[k] !in Excluded
    decreases l
  {
    var i :| 0 <= i < |l.entries| && VisibleIn(l.entries[i], c);
    var e := l.entries[i];
    if k > 0 {
      VisibleAvoidsExcluded(e.listing, c[1..], k - 1);
    }
  }

  /**
   * Whatever the walk returns for a path whose chain of names includes an
   * excluded name can never appear: every returned path is the join of a
   * chain that avoids `EXCLUDED_FOLDERS` entirely.
   */
  lemma WalkAvoidsExcluded(dir: string, l: Listing, p: string)
    requires Walk(dir, l).Some? && p in Walk(dir, l).value
    ensures exists c :: VisibleFile(l, c) && p == JoinAll(dir, c) && forall k :: 0 <= k < |c| ==> c[k] !in Excluded
  {
    WalkListsChains(dir, l);
    var cs := Chains(l);
    var i :| 0 <= i < |cs| && JoinEach(dir, cs)[i] == p;
    ChainsAreVisible(l, cs[i]);
    forall k | 0 <= k < |cs[i]| ensures cs[i][k] !in Excluded {
      VisibleAvoidsExcluded(l, cs[i], k);
    }
  }

  /** When the walk succeeds, a chain's path is returned exactly when the chain names a visible file. */
  lemma WalkFindsVisible(dir: string, l: Listing, c: seq<string>)
    requires Walk(dir, l).Some? && VisibleFile(l, c)
    ensures JoinAll(dir, c) in Walk(dir, l).value
  {
    WalkListsChains(dir, l);
    ChainsAreVisible(l, c);
    var i :| 0 <= i < |Chains(l)| && Chains(l)[i] == c;
    assert JoinEach(dir, Chains(l))[i] == JoinAll(dir, c);
  }

  // ---------------------------------------------------------------------
  // Each kept entry is listed once
  // ---------------------------------------------------------------------

  /** What a real directory tree guarantees: the names in a listing are distinct and hold no `/`. */
  predicate WellFormed(l: Listing)
    decreases l
  {
    l.Readable? ==>
      && (forall i, j :: 0 <= i < j < |l.entries| ==> l.entries[i].name != l.entries[j].name)
      && (forall i :: 0 <= i < |l.entries| ==> EntryWellFormed(l.entries[i]))
  }

  predicate EntryWellFormed(e: Node)
    decreases e
  {
    '/' !in e.name && (e.Directory? ==> WellFormed(e.listing))
  }

  /** The names on a visible file's chain hold no `/` in a well-formed tree. */
  lemma {:induction false} VisibleNoSlash(l: Listing, c: seq<string>, k: nat)
    requires WellFormed(l) && VisibleFile(l, c) && k < |c|
    ensures '/' !in c[k]
    decreases l
  {
    var i :| 0 <= i < |l.entries| && VisibleIn(l.entries[i], c);
    var e := l.entries[i];
    assert EntryWellFormed(e);
    if k > 0 {
      VisibleNoSlash(e.listing, c[1..], k - 1);
    }
  }

  lemma UniqueAppend(a: seq<seq<string>>, b: seq<seq<string>>)
    requires Unique(a) && Unique(b)
    requires forall x :: x in a ==> x !in b
    ensures Unique(a + b)
  {
    forall i, j | 0 <= i < j < |a + b| ensures (a + b)[i] != (a + b)[j] {
      if i < |a| && j >= |a| {
        assert (a + b)[i] in a && (a + b)[j] in b;
      }
    }
  }

  lemma UnderUnique(name: string, cs: seq<seq<string>>)
    requires Unique(cs)
    ensures Unique(Under(name, cs))
  {
    forall i, j | 0 <= i < j < |cs| ensures Under(name, cs)[i] != Under(name, cs)[j] {
      assert Under(name, cs)[i][1..] == cs[i];
      assert Under(name, cs)[j][1..] == cs[j];
    }
  }

  /** In a well-formed tree no chain is listed twice. */
  lemma {:induction false} ChainsUnique(l: Listing)
    requires WellFormed(l)
    ensures Unique(Chains(l))
    decreases l, if l.Readable? then |l.entries| + 1 else 0
  {
    if l.Readable? {
      ChainsPrefixUnique(l, |l.entries|);
    }
  }

  lemma {:induction false} ChainsPrefixUnique(l: Listing, n: nat)
    requires l.Readable? && n <= |l.entries| && WellFormed(l)
    ensures Unique(ChainsPrefix(l, n))
    decreases l, n
  {
    if n > 0 {
      var e := l.entries[n - 1];
      ChainsPrefixUnique(l, n - 1);
      assert EntryWellFormed(e);
      if e.name !in Excluded && e.Directory? {
        ChainsUnique(e.listing);
        UnderUnique(e.name, Chains(e.listing));
      }
      forall x | x in ChainsPrefix(l, n - 1) ensures x !in EntryChains(e) {
        ChainsPrefixAreVisible(l, n - 1, x);
        EntryChainsAreVisible(e, x);
        var i :| 0 <= i < n - 1 && VisibleIn(l.entries[i], x);
        assert l.entries[i].name != e.name;
      }
      UniqueAppend(ChainsPrefix(l, n - 1), EntryChains(e));
    }
  }

  /** Every step of a join adds at least the separator. */
  lemma {:induction false} JoinAllLength(dir: string, c: seq<string>)
    ensures |JoinAll(dir, c)| >= |dir| + |c|
    decreases |c|
  {
    if c != [] {
      JoinAllLength(dir, c[..|c| - 1]);
    }
  }

  /** Under a non-empty directory, chains of `/`-free names give distinct paths. */
  lemma {:induction false} JoinAllInjective(dir: string, c: seq<string>, d: seq<string>)
    requires dir != []
    requires forall k :: 0 <= k < |c| ==> '/' !in c[k]
    requires forall k :: 0 <= k < |d| ==> '/' !in d[k]
    requires JoinAll(dir, c) == JoinAll(dir, d)
    ensures c == d
    decreases |c|
  {
    if c == [] && d != [] {
      JoinAllLength(dir, d);
    } else if c != [] && d == [] {
      JoinAllLength(dir, c);
    } else if c != [] {
      var c0, d0 := c[..|c| - 1], d[..|d| - 1];
      JoinAllLength(dir, c0);
      JoinAllLength(dir, d0);
      DirnameOfJoin(JoinAll(dir, c0), c[|c| - 1]);
      DirnameOfJoin(JoinAll(dir, d0), d[|d| - 1]);
      JoinAllInjective(dir, c0, d0);
      assert c == c0 + [c[|c| - 1]] && d == d0 + [d[|d| - 1]];
    }
  }

  /**
   * Under a non-empty root of a well-formed tree, a successful walk lists
   * no path twice: each kept entry appears exactly once.
   */
  lemma WalkUnique(dir: string, l: Listing)
    requires dir != [] && WellFormed(l) && Walk(dir, l).Some?
    ensures Unique(Walk(dir, l).value)
  {
    WalkListsChains(dir, l);
    ChainsUnique(l);
    var cs := Chains(l);
    forall i, j | 0 <= i < j < |cs| ensures JoinAll(dir, cs[i]) != JoinAll(dir, cs[j]) {
      ChainsAreVisible(l, cs[i]);
      ChainsAreVisible(l, cs[j]);
      forall k | 0 <= k < |cs[i]| ensures '/' !in cs[i][k] {
        VisibleNoSlash(l, cs[i], k);
      }
      forall k | 0 <= k < |cs[j]| ensures '/' !in cs[j][k] {
        VisibleNoSlash(l, cs[j], k);
      }
      if JoinAll(dir, cs[i]) == JoinAll(dir, cs[j]) {
        JoinAllInjective(dir, cs[i], cs[j]);
      }
    }
  }
}

/**
 * The per-folder dedup of `getGitModifiedFiles` (extension.js:165-167):
 * `Array.from(new Map(files.map(f => [f.file, f])).values())`. A JavaScript
 * `Map` keeps its keys in first-insertion order and `set` on an existing
 * key replaces its value in place, so each path keeps the position of its
 * first record and the value of its last one.
 */
module Dedup {
  import opened Seqs
  import opened Records

  /** A `Map` from path to record: `keys` in insertion order and the current value of each. */
  datatype PathMap = PathMap(keys: seq<string>, entries: map<string, FileRecord>)

  /** The keys are distinct, are exactly the entries' domain, and each value is stored under its own path. */
  ghost predicate Valid(m: PathMap) {
    && Unique(m.keys)
    && (forall p :: p in m.entries <==> p in m.keys)
    && (forall p :: p in m.entries ==> m.entries[p].file == p)
  }

  /** `m.set(r.file, r)`. */
  function Set(m: PathMap, r: FileRecord): PathMap {
    if r.file in m.entries then PathMap(m.keys, m.entries[r.file := r])
    else PathMap(m.keys + [r.file], m.entries[r.file := r])
  }

  /** The index of the last record for path `p`. */
  function LastIndexFor(records: seq<FileRecord>, p: string): (k: nat)
    requires p in FilesOf(records)
    ensures k < |records| && records[k].file == p
    ensures forall j :: k < j < |records| ==> records[j].file != p
  {
    var n := |records| - 1;
    if records[n].file == p then n
    else
      assert FilesOf(records) == FilesOf(records[..n]) + [records[n].file];
      LastIndexFor(records[..n], p)
  }

  /** The last record for path `p`. */
  function LastFor(records: seq<FileRecord>, p: string): FileRecord
    requires p in FilesOf(records)
  {
    records[LastIndexFor(records, p)]
  }

  /** `new Map(records.map(f => [f.file, f]))`. */
  function FromRecords(records: seq<FileRecord>): PathMap {
    if records == [] then PathMap([], map[])
    else Set(FromRecords(records[..|records| - 1]), records[|records| - 1])
  }

  /**
   * The map built from `records` has the distinct paths as keys, in
   * first-occurrence order, and holds the last record for each.
   */
  lemma FromRecordsSpec(records: seq<FileRecord>)
    ensures var m := FromRecords(records);
      && Valid(m)
      && m.keys == Distinct(FilesOf(records))
      && (forall p :: p in m.entries ==> p in FilesOf(records) && m.entries[p] == LastFor(records, p))
  {
    FromRecordsKeys(records);
    FromRecordsValues(records);
  }

  lemma {:induction false} FromRecordsKeys(records: seq<FileRecord>)
    ensures var m := FromRecords(records);
      && m.keys == Distinct(FilesOf(records))
      && (forall p :: p in m.entries <==> p in m.keys)
  {
    if records != [] {
      var n := |records| - 1;
      var pre := records[..n];
      FromRecordsKeys(pre);
      assert FilesOf(records)[..n] == FilesOf(pre);
    }
  }

  lemma {:induction false} FromRecordsValues(records: seq<FileRecord>)
    ensures var m := FromRecords(records);
      forall p :: p in m.entries ==> p in FilesOf(records) && m.entries[p].file == p && m.entries[p] == LastFor(records, p)
  {
    if records != [] {
      var n := |records| - 1;
      var pre := records[..n];
      var r := records[n];
      FromRecordsValues(pre);
      assert FilesOf(records) == FilesOf(pre) + [r.file];
      forall p | p in FilesOf(pre) && p != r.file
        ensures LastFor(records, p) == LastFor(pre, p)
      {
      }
    }
  }

  /** `Array.from(m.values())`: the values in key order. */
  function Values(m: PathMap): seq<FileRecord>
    requires Valid(m)
  {
    seq(|m.keys|, i requires 0 <= i < |m.keys| => m.entries[m.keys[i]])
  }

  /** The `uniqueFiles` array `getGitModifiedFiles` resolves with. */
  function UniqueByPath(records: seq<FileRecord>): seq<FileRecord> {
    FromRecordsSpec(records);
    Values(FromRecords(records))
  }

  /**
   * The dedup keeps one record per path, the paths in order of first
   * occurrence, and for each path its last record.
   */
  lemma UniqueByPathSpec(records: seq<FileRecord>)
    ensures var out := UniqueByPath(records);
      && FilesOf(out) == Distinct(FilesOf(records))
      && Unique(FilesOf(out))
      && (forall i :: 0 <= i < |out| ==> out[i].file in FilesOf(records) && out[i] == LastFor(records, out[i].file))
  {
    var m := FromRecords(records);
    FromRecordsSpec(records);
    var out := UniqueByPath(records);
    assert forall i :: 0 <= i < |out| ==> out[i] == m.entries[m.keys[i]] && out[i].file == m.keys[i];
    assert FilesOf(out) == m.keys;
  }

  /** Every path of the input survives, and survivors are input records. */
  lemma UniqueByPathMembers(records: seq<FileRecord>)
    ensures forall p :: p in FilesOf(UniqueByPath(records)) <==> p in FilesOf(records)
    ensures forall r :: r in UniqueByPath(records) ==> r in records
  {
    UniqueByPathSpec(records);
  }

  /** Paths stand in the output in the order of their first appearance in the input. */
  lemma UniqueByPathFirstOrder(records: seq<FileRecord>, i: nat, j: nat)
    requires i < j < |UniqueByPath(records)|
    ensures var out := UniqueByPath(records);
      && out[i].file in FilesOf(records) && out[j].file in FilesOf(records)
      && FirstIndex(FilesOf(records), out[i].file) < FirstIndex(FilesOf(records), out[j].file)
  {
    UniqueByPathSpec(records);
    DistinctFirstOrder(FilesOf(records), i, j);
  }

  /**
   * The records appended last win: when `later` holds a record for path
   * `p`, the output's record for `p` is the last one in `later`, whatever
   * `earlier` holds for `p`.
   */
  lemma LaterRecordsWin(earlier: seq<FileRecord>, later: seq<FileRecord>, i: nat)
    requires i < |UniqueByPath(earlier + later)|
    requires UniqueByPath(earlier + later)[i].file in FilesOf(later)
    ensures UniqueByPath(earlier + later)[i] == LastFor(later, UniqueByPath(earlier + later)[i].file)
  {
    var all := earlier + later;
    var p := UniqueByPath(all)[i].file;
    UniqueByPathSpec(all);
    FilesOfAppend(earlier, later);
    var k := LastIndexFor(later, p);
    assert all[|earlier| + k] == later[k];
    assert forall j :: |earlier| + k < j < |all| ==> all[j] == later[j - |earlier|];
    LastIndexUnique(all, p, LastIndexFor(all, p), |earlier| + k);
  }

  /**
   * A path that `later` does not mention keeps the last record `earlier`
   * holds for it.
   */
  lemma EarlierRecordsKept(earlier: seq<FileRecord>, later: seq<FileRecord>, i: nat)
    requires i < |UniqueByPath(earlier + later)|
    requires UniqueByPath(earlier + later)[i].file !in FilesOf(later)
    ensures UniqueByPath(earlier + later)[i].file in FilesOf(earlier)
    ensures UniqueByPath(earlier + later)[i] == LastFor(earlier, UniqueByPath(earlier + later)[i].file)
  {
    var all := earlier + later;
    var p := UniqueByPath(all)[i].file;
    UniqueByPathSpec(all);
    FilesOfAppend(earlier, later);
    var k := LastIndexFor(all, p);
    assert k < |earlier|;
    assert all[k] == earlier[k];
    assert forall j :: k < j < |earlier| ==> earlier[j] == all[j];
    LastIndexUnique(earlier, p, LastIndexFor(earlier, p), k);
  }

  lemma LastIndexUnique(records: seq<FileRecord>, p: string, a: nat, b: nat)
    requires a < |records| && b < |records|
    requires records[a].file == p && records[b].file == p
    requires forall j :: a < j < |records| ==> records[j].file != p
    requires forall j :: b < j < |records| ==> records[j].file != p
    ensures a == b
  {
  }
}

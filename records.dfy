/** The record every source produces: `{ file, mtime, source }`. */
module Records {

  /** The `source` tag: `'OS'`, `'Git'` or `'Uncommitted Changes'`. */
  datatype Source = OS | Git | Uncommitted

  /** `mtime` is a point in time as an integer (a `Date`'s `getTime()`). */
  datatype FileRecord = FileRecord(file: string, mtime: int, source: Source)

  /** `records.map(f => f.file)`. */
  function FilesOf(records: seq<FileRecord>): (paths: seq<string>)
    ensures |paths| == |records|
    ensures forall i :: 0 <= i < |records| ==> paths[i] == records[i].file
  {
    seq(|records|, i requires 0 <= i < |records| => records[i].file)
  }

  lemma FilesOfAppend(a: seq<FileRecord>, b: seq<FileRecord>)
    ensures FilesOf(a + b) == FilesOf(a) + FilesOf(b)
  {
  }
}

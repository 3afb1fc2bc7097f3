/**
 * The parser of `git status --short` output in `getUncommittedFiles`
 * (extension.js:70-91). Only lines opening with ` M ` (modified in the work
 * tree) or `?? ` (untracked) count; the path after those three characters,
 * trimmed and resolved against the folder, is stat-ed, and a file whose
 * stat fails is left out. The file system's `stat` is the map `stat` from a
 * path to its modification time; a path missing from it is a failed stat.
 */
module GitStatus {
  import opened Text
  import opened Paths
  import opened Records

  /** `line.startsWith(' M ') || line.startsWith('?? ')`. */
  predicate Reported(line: string) {
    StartsWith(line, " M ") || StartsWith(line, "?? ")
  }

  /** `path.resolve(folderPath, line.substring(3).trim())`. */
  function StatusPath(folder: string, line: string): string
    requires |line| >= 3
  {
    Resolve(folder, Trim(line[3..]))
  }

  /**
   * `git status --short` prints an untracked directory as `?? dir/`; its
   * record is the directory's path, whose `dirname` is the folder and
   * whose `basename` is the directory's name.
   */
  lemma UntrackedDirectoryPath(folder: string, name: string)
    requires folder != [] && folder[|folder| - 1] != '/'
    requires name != [] && '/' !in name && !IsSpace(name[0])
    ensures StatusPath(folder, "?? " + name + "/") == Join(folder, name)
    ensures Dirname(StatusPath(folder, "?? " + name + "/")) == folder
    ensures Basename(StatusPath(folder, "?? " + name + "/")) == name
  {
    var line := "?? " + name + "/";
    assert line[3..] == name + "/";
    TrimOfTrimmed(name + "/");
    ResolveEntry(folder, name);
  }

  /** What one line pushes: a record when it is reported and its stat succeeds, nothing otherwise. */
  function StatusRecord(folder: string, stat: map<string, int>, line: string): seq<FileRecord> {
    if Reported(line) && StatusPath(folder, line) in stat then
      var p := StatusPath(folder, line);
      [FileRecord(p, stat[p], Uncommitted)]
    else []
  }

  /** The records pushed while reading `lines`. */
  function StatusRecords(folder: string, stat: map<string, int>, lines: seq<string>): seq<FileRecord> {
    if lines == [] then []
    else StatusRecords(folder, stat, lines[..|lines| - 1]) + StatusRecord(folder, stat, lines[|lines| - 1])
  }

  /** All `Uncommitted Changes` records of one `git status --short` output. */
  function UncommittedRecords(folder: string, stdout: string, stat: map<string, int>): seq<FileRecord> {
    StatusRecords(folder, stat, Lines(stdout))
  }

  /** The loop of extension.js:70-89; the result is the array `getUncommittedFiles` resolves with. */
  method ParseGitStatus(folder: string, stdout: string, stat: map<string, int>) returns (uncommitted: seq<FileRecord>)
    ensures uncommitted == UncommittedRecords(folder, stdout, stat)
  {
    var lines := Lines(stdout);
    uncommitted := [];
    var i := 0;
    while i < |lines|
      invariant 0 <= i <= |lines|
      invariant uncommitted == StatusRecords(folder, stat, lines[..i])
    {
      var line := lines[i];
      assert lines[..i + 1][..i] == lines[..i];
      ghost var next := StatusRecord(folder, stat, line);
      assert StatusRecords(folder, stat, lines[..i + 1]) == uncommitted + next;
      if Reported(line) {
        var fullPath := StatusPath(folder, line);
        if fullPath in stat {
          assert next == [FileRecord(fullPath, stat[fullPath], Uncommitted)];
          uncommitted := uncommitted + [FileRecord(fullPath, stat[fullPath], Uncommitted)];
        } else {
          assert next == [];
          assert uncommitted + next == uncommitted;
        }
      } else {
        assert next == [];
        assert uncommitted + next == uncommitted;
      }
      i := i + 1;
    }
    assert lines[..i] == lines;
  }

  // ---------------------------------------------------------------------
  // Properties of the parser
  // ---------------------------------------------------------------------

  /** Each line contributes independently of the others. */
  lemma {:induction false} StatusRecordsAppend(folder: string, stat: map<string, int>, a: seq<string>, b: seq<string>)
    ensures StatusRecords(folder, stat, a + b) == StatusRecords(folder, stat, a) + StatusRecords(folder, stat, b)
    decreases |b|
  {
    if b == [] {
      assert a + b == a;
    } else {
      var n := |b| - 1;
      assert (a + b)[..|a + b| - 1] == a + b[..n];
      StatusRecordsAppend(folder, stat, a, b[..n]);
    }
  }

  /** `r` is the record of line `j`: a reported line whose resolved path has a stat. */
  predicate ProducedBy(folder: string, stat: map<string, int>, lines: seq<string>, j: int, r: FileRecord) {
    0 <= j < |lines| && StatusRecord(folder, stat, lines[j]) == [r]
  }

  /** A line yields a record exactly when it is reported and its stat succeeds; it is tagged `Uncommitted`. */
  lemma StatusRecordShape(folder: string, stat: map<string, int>, line: string, r: FileRecord)
    ensures StatusRecord(folder, stat, line) == [r] <==>
      && Reported(line) && StatusPath(folder, line) in stat
      && r == FileRecord(StatusPath(folder, line), stat[StatusPath(folder, line)], Uncommitted)
  {
  }

  /** A record appears only for a reported line whose stat succeeds, and it is that line's record. */
  lemma {:induction false} StatusRecordOrigin(folder: string, stat: map<string, int>, lines: seq<string>, k: nat)
    requires k < |StatusRecords(folder, stat, lines)|
    ensures exists j :: ProducedBy(folder, stat, lines, j, StatusRecords(folder, stat, lines)[k])
    decreases |lines|
  {
    var n := |lines| - 1;
    var p := lines[..n];
    var out := StatusRecords(folder, stat, lines);
    var before := StatusRecords(folder, stat, p);
    if k < |before| {
      assert out[k] == before[k];
      StatusRecordOrigin(folder, stat, p, k);
      var j :| ProducedBy(folder, stat, p, j, before[k]);
      assert lines[j] == p[j];
      assert ProducedBy(folder, stat, lines, j, out[k]);
    } else {
      assert ProducedBy(folder, stat, lines, n, out[k]);
    }
  }

  /** A single line's output is that line's record, if any. */
  lemma StatusRecordsOfOne(folder: string, stat: map<string, int>, x: string)
    ensures StatusRecords(folder, stat, [x]) == StatusRecord(folder, stat, x)
  {
    assert [x][..0] == [];
  }

  /**
   * A reported line whose stat succeeds yields its record, placed after the
   * records of the lines before it.
   */
  lemma StatusLineProduces(folder: string, stat: map<string, int>, lines: seq<string>, j: nat)
    requires j < |lines| && Reported(lines[j]) && StatusPath(folder, lines[j]) in stat
    ensures var out := StatusRecords(folder, stat, lines);
      var at := |StatusRecords(folder, stat, lines[..j])|;
      at < |out| && StatusRecord(folder, stat, lines[j]) == [out[at]]
  {
    var a, x, b := lines[..j], lines[j], lines[j + 1..];
    var ax := a + [x];
    assert lines == ax + b;
    var own := StatusRecord(folder, stat, x);
    assert |own| == 1;
    StatusRecordsAppend(folder, stat, ax, b);
    StatusRecordsAppend(folder, stat, a, [x]);
    StatusRecordsOfOne(folder, stat, x);
  }

  /**
   * A line that is not reported, or whose stat fails, drops out and takes
   * nothing else with it: removing it leaves the output unchanged.
   */
  lemma UnproducingLineDropsAlone(folder: string, stat: map<string, int>, lines: seq<string>, j: nat)
    requires j < |lines|
    requires !Reported(lines[j]) || StatusPath(folder, lines[j]) !in stat
    ensures StatusRecords(folder, stat, lines[..j] + lines[j + 1..]) == StatusRecords(folder, stat, lines)
  {
    assert lines == lines[..j] + [lines[j]] + lines[j + 1..];
    DropSilentLine(folder, stat, lines[..j], lines[j], lines[j + 1..]);
  }

  /** The step of `UnproducingLineDropsAlone`: a line without a record can be cut out. */
  lemma DropSilentLine(folder: string, stat: map<string, int>, a: seq<string>, x: string, b: seq<string>)
    requires StatusRecord(folder, stat, x) == []
    ensures StatusRecords(folder, stat, a + b) == StatusRecords(folder, stat, a + [x] + b)
  {
    StatusRecordsOfOne(folder, stat, x);
    StatusRecordsAppend(folder, stat, a, [x]);
    StatusRecordsAppend(folder, stat, a + [x], b);
    StatusRecordsAppend(folder, stat, a, b);
  }
}

/**
 * The parser of `git log --name-only --pretty=format:"%ad %n" --date=iso`
 * output in `getGitModifiedFiles` (extension.js:148-159): a line opening
 * with a `YYYY-MM-DD` date sets the current date, and every later other
 * line names a file changed at the current date. Turning the date line into
 * a timestamp (`new Date(line.trim())`) is the parameter `dateOf`.
 */
module GitLog {
  import opened Wrappers
  import opened Text
  import opened Paths
  import opened Records

  /** `\d` without the `u` flag: an ASCII digit. */
  predicate IsDigit(c: char) {
    '0' <= c <= '9'
  }

  /** `line.match(/^\d{4}-\d{2}-\d{2}/)`. */
  predicate IsDateLine(line: string) {
    && |line| >= 10
    && IsDigit(line[0]) && IsDigit(line[1]) && IsDigit(line[2]) && IsDigit(line[3])
    && line[4] == '-'
    && IsDigit(line[5]) && IsDigit(line[6])
    && line[7] == '-'
    && IsDigit(line[8]) && IsDigit(line[9])
  }

  /** The record a file line produces under the current date `date`. */
  function LogRecord(folder: string, line: string, date: int): FileRecord {
    FileRecord(Resolve(folder, Trim(line)), date, Git)
  }

  /** The current date after reading `line`, starting from `current`. */
  function NextDate(dateOf: string -> int, current: Option<int>, line: string): Option<int> {
    if IsDateLine(line) then Some(dateOf(Trim(line))) else current
  }

  /** The records the loop pushes while reading `lines` with `current` as the date in force. */
  function LogFrom(folder: string, dateOf: string -> int, current: Option<int>, lines: seq<string>): seq<FileRecord>
    decreases |lines|
  {
    if lines == [] then []
    else
      var line := lines[0];
      var here := if !IsDateLine(line) && current.Some? then [LogRecord(folder, line, current.value)] else [];
      here + LogFrom(folder, dateOf, NextDate(dateOf, current, line), lines[1..])
  }

  /** The date in force after reading `lines`, starting from `current`. */
  function DateAfter(dateOf: string -> int, current: Option<int>, lines: seq<string>): Option<int>
    decreases |lines|
  {
    if lines == [] then current
    else DateAfter(dateOf, NextDate(dateOf, current, lines[0]), lines[1..])
  }

  /** All `Git` records of one `git log` output. */
  function LogRecords(folder: string, stdout: string, dateOf: string -> int): seq<FileRecord> {
    LogFrom(folder, dateOf, None, Lines(stdout))
  }

  /** The loop of extension.js:148-159; the result is the pushed `files` array before line 163. */
  method ParseGitLog(folder: string, stdout: string, dateOf: string -> int) returns (files: seq<FileRecord>)
    ensures files == LogRecords(folder, stdout, dateOf)
  {
    var lines := Lines(stdout);
    files := [];
    var currentDate: Option<int> := None;
    var i := 0;
    while i < |lines|
      invariant 0 <= i <= |lines|
      invariant files == LogFrom(folder, dateOf, None, lines[..i])
      invariant currentDate == DateAfter(dateOf, None, lines[..i])
    {
      var line := lines[i];
      LogStep(folder, dateOf, lines, i);
      if IsDateLine(line) {
        currentDate := Some(dateOf(Trim(line)));
      } else if currentDate.Some? {
        files := files + [LogRecord(folder, line, currentDate.value)];
      }
      i := i + 1;
    }
    assert lines[..i] == lines;
  }

  /** One more line: what it pushes and the date it leaves. */
  lemma LogStep(folder: string, dateOf: string -> int, lines: seq<string>, i: nat)
    requires i < |lines|
    ensures var current := DateAfter(dateOf, None, lines[..i]);
      && LogFrom(folder, dateOf, None, lines[..i + 1]) == LogFrom(folder, dateOf, None, lines[..i]) +
        (if !IsDateLine(lines[i]) && current.Some? then [LogRecord(folder, lines[i], current.value)] else [])
      && DateAfter(dateOf, None, lines[..i + 1]) == NextDate(dateOf, current, lines[i])
  {
    assert lines[..i + 1] == lines[..i] + [lines[i]];
    LogFromAppend(folder, dateOf, None, lines[..i], [lines[i]]);
    DateAfterAppend(dateOf, None, lines[..i], [lines[i]]);
  }

  lemma {:induction false} DateAfterAppend(dateOf: string -> int, current: Option<int>, a: seq<string>, b: seq<string>)
    ensures DateAfter(dateOf, current, a + b) == DateAfter(dateOf, DateAfter(dateOf, current, a), b)
    decreases |a|
  {
    if a == [] {
      assert a + b == b;
    } else {
      assert (a + b)[0] == a[0] && (a + b)[1..] == a[1..] + b;
      DateAfterAppend(dateOf, NextDate(dateOf, current, a[0]), a[1..], b);
    }
  }

  // ---------------------------------------------------------------------
  // The nearest preceding date line
  // ---------------------------------------------------------------------

  /** The index of the last date line in `lines`, or -1 when there is none. */
  function LastDateLine(lines: seq<string>): (m: int)
    ensures -1 <= m < |lines|
    ensures m >= 0 ==> IsDateLine(lines[m])
    ensures forall q :: m < q < |lines| ==> !IsDateLine(lines[q])
  {
    if lines == [] then -1
    else if IsDateLine(lines[|lines| - 1]) then |lines| - 1
    else LastDateLine(lines[..|lines| - 1])
  }

  /**
   * The date the loop holds after `lines` is that of the nearest date line
   * among them, or the one it started with when there is none.
   */
  lemma {:induction false} DateAfterIsLastDateLine(dateOf: string -> int, current: Option<int>, lines: seq<string>)
    ensures var m := LastDateLine(lines);
      DateAfter(dateOf, current, lines) == if m >= 0 then Some(dateOf(Trim(lines[m]))) else current
    decreases |lines|
  {
    if lines != [] {
      var rest := lines[1..];
      var first := NextDate(dateOf, current, lines[0]);
      var after := DateAfter(dateOf, first, rest);
      assert DateAfter(dateOf, current, lines) == after;
      DateAfterIsLastDateLine(dateOf, first, rest);
      var m := LastDateLine(rest);
      var k := LastDateLine(lines);
      LastDateLineOfCons(lines);
      if m >= 0 {
        assert k == m + 1 && lines[k] == rest[m];
        assert after == Some(dateOf(Trim(lines[k])));
      } else if IsDateLine(lines[0]) {
        assert k == 0 && after == first;
      } else {
        assert k == -1 && after == first && first == current;
      }
    }
  }

  lemma LastDateLineOfCons(lines: seq<string>)
    requires lines != []
    ensures var m := LastDateLine(lines[1..]);
      LastDateLine(lines) == if m >= 0 then m + 1 else if IsDateLine(lines[0]) then 0 else -1
  {
    var m := LastDateLine(lines[1..]);
    var k := LastDateLine(lines);
    if m >= 0 {
      assert IsDateLine(lines[m + 1]);
      assert forall q :: m + 1 < q < |lines| ==> lines[q] == lines[1..][q - 1];
    } else if IsDateLine(lines[0]) {
      assert forall q :: 0 < q < |lines| ==> lines[q] == lines[1..][q - 1];
    } else {
      assert forall q :: 0 <= q < |lines| ==> q == 0 || lines[q] == lines[1..][q - 1];
    }
    LastDateLineUnique(lines, k, if m >= 0 then m + 1 else if IsDateLine(lines[0]) then 0 else -1);
  }

  /** Two candidates for "the last date line" are the same. */
  lemma LastDateLineUnique(lines: seq<string>, a: int, b: int)
    requires -1 <= a < |lines| && -1 <= b < |lines|
    requires a >= 0 ==> IsDateLine(lines[a])
    requires b >= 0 ==> IsDateLine(lines[b])
    requires forall q :: a < q < |lines| ==> !IsDateLine(lines[q])
    requires forall q :: b < q < |lines| ==> !IsDateLine(lines[q])
    ensures a == b
  {
  }

  // ---------------------------------------------------------------------
  // Properties of the parser
  // ---------------------------------------------------------------------

  /** Reading `a` then `b` pushes what reading `a` pushes, then what reading `b` pushes from the date `a` leaves. */
  lemma {:induction false} LogFromAppend(folder: string, dateOf: string -> int, current: Option<int>, a: seq<string>, b: seq<string>)
    ensures LogFrom(folder, dateOf, current, a + b)
         == LogFrom(folder, dateOf, current, a) + LogFrom(folder, dateOf, DateAfter(dateOf, current, a), b)
    decreases |a|
  {
    if a == [] {
      assert a + b == b;
    } else {
      assert (a + b)[0] == a[0] && (a + b)[1..] == a[1..] + b;
      LogFromAppend(folder, dateOf, NextDate(dateOf, current, a[0]), a[1..], b);
    }
  }

  /** Every record the parser produces is tagged `Git`. */
  lemma {:induction false} LogRecordsAreGit(folder: string, dateOf: string -> int, current: Option<int>, lines: seq<string>)
    ensures forall r :: r in LogFrom(folder, dateOf, current, lines) ==> r.source == Git
    decreases |lines|
  {
    if lines != [] {
      LogRecordsAreGit(folder, dateOf, NextDate(dateOf, current, lines[0]), lines[1..]);
    }
  }

  /** Lines read before any date line, with no date in force, produce nothing. */
  lemma {:induction false} NoDateNoRecords(folder: string, dateOf: string -> int, lines: seq<string>)
    requires forall q :: 0 <= q < |lines| ==> !IsDateLine(lines[q])
    ensures LogFrom(folder, dateOf, None, lines) == []
    ensures DateAfter(dateOf, None, lines) == None
    decreases |lines|
  {
    if lines != [] {
      assert !IsDateLine(lines[0]);
      assert forall q :: 0 <= q < |lines| - 1 ==> lines[1..][q] == lines[q + 1];
      NoDateNoRecords(folder, dateOf, lines[1..]);
    }
  }

  /** The lines before the first date line are ignored: the output is that of the rest. */
  lemma PrefixBeforeFirstDateIgnored(folder: string, dateOf: string -> int, a: seq<string>, b: seq<string>)
    requires forall q :: 0 <= q < |a| ==> !IsDateLine(a[q])
    ensures LogFrom(folder, dateOf, None, a + b) == LogFrom(folder, dateOf, None, b)
  {
    LogFromAppend(folder, dateOf, None, a, b);
    NoDateNoRecords(folder, dateOf, a);
  }

  /**
   * A non-date line `lines[j]` preceded by a date line produces, at the
   * position after everything produced before it, the record for
   * `resolve(folder, lines[j].trim())` with the date of the nearest
   * preceding date line.
   */
  lemma FileLineProduces(folder: string, dateOf: string -> int, lines: seq<string>, j: nat)
    requires j < |lines| && !IsDateLine(lines[j])
    requires LastDateLine(lines[..j]) >= 0
    ensures var out := LogFrom(folder, dateOf, None, lines);
      var at := |LogFrom(folder, dateOf, None, lines[..j])|;
      at < |out| && out[at] == LogRecord(folder, lines[j], dateOf(Trim(lines[LastDateLine(lines[..j])])))
  {
    var m := LastDateLine(lines[..j]);
    assert lines == lines[..j] + lines[j..];
    assert lines[j..] == [lines[j]] + lines[j + 1..];
    LogFromAppend(folder, dateOf, None, lines[..j], lines[j..]);
    DateAfterIsLastDateLine(dateOf, None, lines[..j]);
  }

  /**
   * `r` is the record line `j` produces: `lines[j]` is not a date line, a
   * date line precedes it, and `r` carries the line's trimmed path resolved
   * against the folder and the date of the nearest date line before `j`.
   */
  predicate ProducedBy(folder: string, dateOf: string -> int, lines: seq<string>, j: int, r: FileRecord) {
    && 0 <= j < |lines| && !IsDateLine(lines[j]) && LastDateLine(lines[..j]) >= 0
    && r == LogRecord(folder, lines[j], dateOf(Trim(lines[LastDateLine(lines[..j])])))
  }

  /** Every record the parser produces is produced by one of the lines. */
  lemma {:induction false} LogRecordOrigin(folder: string, dateOf: string -> int, lines: seq<string>, k: nat)
    requires k < |LogFrom(folder, dateOf, None, lines)|
    ensures exists j :: ProducedBy(folder, dateOf, lines, j, LogFrom(folder, dateOf, None, lines)[k])
    decreases |lines|
  {
    var n := |lines| - 1;
    var p := lines[..n];
    LogStep(folder, dateOf, lines, n);
    assert lines[..n + 1] == lines;
    var out := LogFrom(folder, dateOf, None, lines);
    var before := LogFrom(folder, dateOf, None, p);
    if k < |before| {
      assert out[k] == before[k];
      LogRecordOrigin(folder, dateOf, p, k);
      var j :| ProducedBy(folder, dateOf, p, j, before[k]);
      ProducedByExtends(folder, dateOf, p, lines, j, before[k]);
    } else {
      LastLineOrigin(folder, dateOf, lines, k);
    }
  }

  /** A record produced by a line of a prefix is produced by the same line of the whole. */
  lemma ProducedByExtends(folder: string, dateOf: string -> int, p: seq<string>, lines: seq<string>, j: int, r: FileRecord)
    requires |p| <= |lines| && p == lines[..|p|]
    requires ProducedBy(folder, dateOf, p, j, r)
    ensures ProducedBy(folder, dateOf, lines, j, r)
  {
    assert p[..j] == lines[..j];
    assert p[j] == lines[j];
  }

  /** The records past those of `lines` without its last line come from the last line. */
  lemma LastLineOrigin(folder: string, dateOf: string -> int, lines: seq<string>, k: nat)
    requires lines != []
    requires |LogFrom(folder, dateOf, None, lines[..|lines| - 1])| <= k < |LogFrom(folder, dateOf, None, lines)|
    ensures ProducedBy(folder, dateOf, lines, |lines| - 1, LogFrom(folder, dateOf, None, lines)[k])
  {
    var n := |lines| - 1;
    var p := lines[..n];
    LogStep(folder, dateOf, lines, n);
    assert lines[..n + 1] == lines;
    DateAfterIsLastDateLine(dateOf, None, p);
  }
}

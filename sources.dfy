/**
 * Where the records of one workspace folder come from. In OS mode
 * (extension.js:34-49) the folder is walked and every file is stat-ed as
 * one `Promise.all` batch; in Git mode (extension.js:110-122 and 133-174)
 * the `git log` and `git status` outputs are parsed, concatenated and
 * deduplicated by path, then passed through the folder's `seenFiles` set.
 * A batch that rejects is caught by the folder's `try` and contributes no
 * records.
 */
module Sources {
  import opened Wrappers
  import opened Text
  import opened Seqs
  import opened Records
  import opened TreeWalker
  import opened GitLog
  import opened GitStatus
  import opened Dedup

  /**
   * A workspace folder: its path, the tree below it, and what `git log` and
   * `git status --short` print in it, `None` when the command fails.
   */
  datatype Folder = Folder(path: string, tree: Listing, log: Option<string>, status: Option<string>)

  // ---------------------------------------------------------------------
  // OS mode
  // ---------------------------------------------------------------------

  /**
   * `Promise.all(files.map(stat))`: one `OS` record per file, in order, or a
   * rejection when any stat fails.
   */
  function StatAll(files: seq<string>, stat: map<string, int>): (r: Option<seq<FileRecord>>)
    ensures r.Some? <==> forall f :: f in files ==> f in stat
    ensures r.Some? ==> |r.value| == |files|
    ensures r.Some? ==> forall i :: 0 <= i < |files| ==> r.value[i] == FileRecord(files[i], stat[files[i]], OS)
  {
    if files == [] then Some([])
    else
      var n := |files| - 1;
      assert forall f :: f in files <==> f in files[..n] || f == files[n];
      match StatAll(files[..n], stat)
      case None => None
      case Some(rs) =>
        if files[n] in stat then Some(rs + [FileRecord(files[n], stat[files[n]], OS)]) else None
  }

  /** What one folder's `try` block pushes onto `recentFilesOS`. */
  function OsFolderRecords(folder: Folder, stat: map<string, int>): seq<FileRecord> {
    match Walk(folder.path, folder.tree)
    case None => []
    case Some(files) =>
      match StatAll(files, stat)
      case None => []
      case Some(rs) => rs
  }

  /** The `try` block for one folder (extension.js:35-46): walk it, stat every file, or give nothing. */
  method ReadFolderOS(folder: Folder, stat: map<string, int>) returns (fileStats: seq<FileRecord>)
    ensures fileStats == OsFolderRecords(folder, stat)
  {
    var files := GetFilesInFolder(folder.path, folder.tree);
    if files.None? {
      return [];
    }
    var batch := StatAll(files.value, stat);
    if batch.None? {
      return [];
    }
    return batch.value;
  }

  /** `recentFilesOS` after the loop over the workspace folders, before sorting. */
  function OsRecords(folders: seq<Folder>, stat: map<string, int>): seq<FileRecord> {
    if folders == [] then []
    else OsRecords(folders[..|folders| - 1], stat) + OsFolderRecords(folders[|folders| - 1], stat)
  }

  /** Every OS record is the stat of a file the walk of some folder returned. */
  lemma {:induction false} OsRecordOrigin(folders: seq<Folder>, stat: map<string, int>, k: nat)
    requires k < |OsRecords(folders, stat)|
    ensures var r := OsRecords(folders, stat)[k];
      && r.source == OS && r.file in stat && r.mtime == stat[r.file]
      && exists i :: 0 <= i < |folders| && OsFolderRecords(folders[i], stat) != [] && r in OsFolderRecords(folders[i], stat)
    decreases |folders|
  {
    var n := |folders| - 1;
    var before := OsRecords(folders[..n], stat);
    var out := OsRecords(folders, stat);
    if k < |before| {
      OsRecordOrigin(folders[..n], stat, k);
      assert out[k] == before[k];
      var i :| 0 <= i < n && OsFolderRecords(folders[..n][i], stat) != [] && before[k] in OsFolderRecords(folders[..n][i], stat);
      assert folders[..n][i] == folders[i];
    } else {
      var rs := OsFolderRecords(folders[n], stat);
      assert out[k] == rs[k - |before|];
      assert out[k] in rs;
    }
  }

  /** An OS record's path is one the folder's walk returned. */
  lemma OsFolderRecordWalked(folder: Folder, stat: map<string, int>, r: FileRecord)
    requires r in OsFolderRecords(folder, stat)
    ensures Walk(folder.path, folder.tree).Some? && r.file in Walk(folder.path, folder.tree).value
  {
    var files := Walk(folder.path, folder.tree).value;
    var rs := StatAll(files, stat).value;
    var i :| 0 <= i < |rs| && rs[i] == r;
    assert r.file == files[i];
  }

  /**
   * When a folder's walk succeeds and every file stats, each of its files
   * has its record in `recentFilesOS`.
   */
  lemma {:induction false} OsRecordsComplete(folders: seq<Folder>, stat: map<string, int>, i: nat, p: string)
    requires i < |folders|
    requires Walk(folders[i].path, folders[i].tree).Some?
    requires forall f :: f in Walk(folders[i].path, folders[i].tree).value ==> f in stat
    requires p in Walk(folders[i].path, folders[i].tree).value
    ensures FileRecord(p, stat[p], OS) in OsRecords(folders, stat)
    decreases |folders|
  {
    var n := |folders| - 1;
    var pre := folders[..n];
    assert OsRecords(folders, stat) == OsRecords(pre, stat) + OsFolderRecords(folders[n], stat);
    if i < n {
      assert pre[i] == folders[i];
      OsRecordsComplete(pre, stat, i, p);
    } else {
      FolderRecordsComplete(folders[n], stat, p);
    }
  }

  /** The same for one folder. */
  lemma FolderRecordsComplete(folder: Folder, stat: map<string, int>, p: string)
    requires Walk(folder.path, folder.tree).Some?
    requires forall f :: f in Walk(folder.path, folder.tree).value ==> f in stat
    requires p in Walk(folder.path, folder.tree).value
    ensures FileRecord(p, stat[p], OS) in OsFolderRecords(folder, stat)
  {
    var files := Walk(folder.path, folder.tree).value;
    var rs := StatAll(files, stat);
    var j :| 0 <= j < |files| && files[j] == p;
    assert rs.value[j] == FileRecord(p, stat[p], OS);
  }

  /**
   * One file whose stat fails rejects the whole `Promise.all` batch: the
   * folder contributes no record at all.
   */
  lemma OneFailedStatDropsFolder(folder: Folder, stat: map<string, int>, p: string)
    requires Walk(folder.path, folder.tree).Some? && p in Walk(folder.path, folder.tree).value
    requires p !in stat
    ensures OsFolderRecords(folder, stat) == []
  {
  }

  /** OS mode does no dedup: a folder listed twice contributes its records twice. */
  lemma OsKeepsRepeats(folder: Folder, stat: map<string, int>)
    ensures OsRecords([folder, folder], stat) == OsFolderRecords(folder, stat) + OsFolderRecords(folder, stat)
  {
    assert [folder, folder][..1] == [folder];
    assert [folder][..0] == [];
    assert OsRecords([folder], stat) == OsFolderRecords(folder, stat);
  }

  // ---------------------------------------------------------------------
  // Git mode
  // ---------------------------------------------------------------------

  /** The `uniqueFiles` of one folder once both commands have printed. */
  function GitFolderRecords(folder: string, logOut: string, statusOut: string, dateOf: string -> int, stat: map<string, int>): seq<FileRecord> {
    UniqueByPath(LogRecords(folder, logOut, dateOf) + UncommittedRecords(folder, statusOut, stat))
  }

  /** How the promise `getGitModifiedFiles` returns ends. */
  datatype Settlement = Resolved(records: seq<FileRecord>) | Rejected | NeverSettles

  /**
   * `getGitModifiedFiles` as written. When `git status` fails after `git
   * log` succeeded, the `await` at extension.js:161 throws inside the async
   * `exec` callback; that rejects only the callback's own promise, and
   * neither `resolve` nor `reject` of the promise returned to the caller is
   * ever called.
   */
  function GitFolderSettlementAsWritten(folder: string, log: Option<string>, status: Option<string>, dateOf: string -> int, stat: map<string, int>): Settlement {
    if log.None? then Rejected
    else if status.None? then NeverSettles
    else Resolved(GitFolderRecords(folder, log.value, status.value, dateOf, stat))
  }

  /** A successful `git log` followed by a failing `git status` leaves the update waiting forever. */
  lemma StatusFailureNeverSettles(folder: string, logOut: string, dateOf: string -> int, stat: map<string, int>)
    ensures GitFolderSettlementAsWritten(folder, Some(logOut), None, dateOf, stat) == NeverSettles
  {
  }

  /**
   * `getGitModifiedFiles` as evidently intended: a failing `git status`
   * rejects the folder's promise like a failing `git log` does.
   */
  function GitFolderSettlement(folder: string, log: Option<string>, status: Option<string>, dateOf: string -> int, stat: map<string, int>): Settlement {
    if log.None? || status.None? then Rejected
    else Resolved(GitFolderRecords(folder, log.value, status.value, dateOf, stat))
  }

  /**
   * The corrected pipeline always settles, rejects exactly when a command
   * fails, and otherwise agrees with the code as written.
   */
  lemma GitFolderAlwaysSettles(folder: string, log: Option<string>, status: Option<string>, dateOf: string -> int, stat: map<string, int>)
    ensures GitFolderSettlement(folder, log, status, dateOf, stat) != NeverSettles
    ensures GitFolderSettlement(folder, log, status, dateOf, stat).Rejected? <==> log.None? || status.None?
    ensures log.None? || status.Some? ==>
      GitFolderSettlement(folder, log, status, dateOf, stat) == GitFolderSettlementAsWritten(folder, log, status, dateOf, stat)
  {
  }

  /** `getGitModifiedFiles` (extension.js:133-174), with the status failure corrected. */
  method GetGitModifiedFiles(folder: string, log: Option<string>, status: Option<string>, dateOf: string -> int, stat: map<string, int>)
    returns (s: Settlement)
    ensures s == GitFolderSettlement(folder, log, status, dateOf, stat)
  {
    if log.None? {
      return Rejected;
    }
    var files := ParseGitLog(folder, log.value, dateOf);
    if status.None? {
      return Rejected;
    }
    var uncommittedFiles := ParseGitStatus(folder, status.value, stat);
    files := files + uncommittedFiles;
    s := Resolved(UniqueByPath(files));
  }

  /**
   * A folder's Git records hold each path once, in the order in which the
   * paths first appear in the log records followed by the status records.
   */
  lemma GitFolderRecordsUnique(folder: string, logOut: string, statusOut: string, dateOf: string -> int, stat: map<string, int>)
    ensures var out := GitFolderRecords(folder, logOut, statusOut, dateOf, stat);
      && Unique(FilesOf(out))
      && FilesOf(out) == Distinct(FilesOf(LogRecords(folder, logOut, dateOf)) + FilesOf(UncommittedRecords(folder, statusOut, stat)))
  {
    var log := LogRecords(folder, logOut, dateOf);
    var uncommitted := UncommittedRecords(folder, statusOut, stat);
    UniqueByPathSpec(log + uncommitted);
    FilesOfAppend(log, uncommitted);
  }

  /** Every record of the status parser is tagged `Uncommitted`. */
  lemma UncommittedTagged(folder: string, statusOut: string, stat: map<string, int>, k: nat)
    requires k < |UncommittedRecords(folder, statusOut, stat)|
    ensures UncommittedRecords(folder, statusOut, stat)[k].source == Uncommitted
  {
    var lines := Lines(statusOut);
    var r := UncommittedRecords(folder, statusOut, stat)[k];
    StatusRecordOrigin(folder, stat, lines, k);
    var j :| GitStatus.ProducedBy(folder, stat, lines, j, r);
    StatusRecordShape(folder, stat, lines[j], r);
  }

  /**
   * A path with uncommitted changes carries its last `Uncommitted` record,
   * whatever `git log` says about it.
   */
  lemma UncommittedWins(folder: string, logOut: string, statusOut: string, dateOf: string -> int, stat: map<string, int>, i: nat)
    requires i < |GitFolderRecords(folder, logOut, statusOut, dateOf, stat)|
    requires GitFolderRecords(folder, logOut, statusOut, dateOf, stat)[i].file in FilesOf(UncommittedRecords(folder, statusOut, stat))
    ensures var out := GitFolderRecords(folder, logOut, statusOut, dateOf, stat);
      var uncommitted := UncommittedRecords(folder, statusOut, stat);
      out[i] == LastFor(uncommitted, out[i].file) && out[i].source == Uncommitted
  {
    var log := LogRecords(folder, logOut, dateOf);
    var uncommitted := UncommittedRecords(folder, statusOut, stat);
    var out := GitFolderRecords(folder, logOut, statusOut, dateOf, stat);
    LaterRecordsWin(log, uncommitted, i);
    UncommittedTagged(folder, statusOut, stat, LastIndexFor(uncommitted, out[i].file));
  }

  /**
   * A path without uncommitted changes carries its last `git log` record:
   * with the log printed newest first, the date of its oldest commit.
   */
  lemma LastCommitRecordWins(folder: string, logOut: string, statusOut: string, dateOf: string -> int, stat: map<string, int>, i: nat)
    requires i < |GitFolderRecords(folder, logOut, statusOut, dateOf, stat)|
    requires GitFolderRecords(folder, logOut, statusOut, dateOf, stat)[i].file !in FilesOf(UncommittedRecords(folder, statusOut, stat))
    ensures var out := GitFolderRecords(folder, logOut, statusOut, dateOf, stat);
      var log := LogRecords(folder, logOut, dateOf);
      && out[i].file in FilesOf(log) && out[i] == LastFor(log, out[i].file) && out[i].source == Git
  {
    var log := LogRecords(folder, logOut, dateOf);
    var uncommitted := UncommittedRecords(folder, statusOut, stat);
    var out := GitFolderRecords(folder, logOut, statusOut, dateOf, stat);
    EarlierRecordsKept(log, uncommitted, i);
    var k := LastIndexFor(log, out[i].file);
    assert log[k] in log;
    LogRecordsAreGit(folder, dateOf, None, Lines(logOut));
  }

  /** `gitFiles.forEach` with the folder's fresh `seenFiles`: the first record of each path, in order. */
  function FirstPerPath(records: seq<FileRecord>): seq<FileRecord> {
    if records == [] then []
    else
      var n := |records| - 1;
      if records[n].file in FilesOf(records[..n]) then FirstPerPath(records[..n])
      else FirstPerPath(records[..n]) + [records[n]]
  }

  /**
   * The `seenFiles` filter keeps the paths in order of first appearance,
   * and for each path the record where that path first appears.
   */
  lemma {:induction false} FirstPerPathSpec(records: seq<FileRecord>)
    ensures FilesOf(FirstPerPath(records)) == Distinct(FilesOf(records))
    ensures forall r :: r in FirstPerPath(records) ==> r in records
    ensures forall i :: 0 <= i < |FirstPerPath(records)| ==>
      FirstPerPath(records)[i].file in FilesOf(records) &&
      FirstPerPath(records)[i] == records[FirstIndex(FilesOf(records), FirstPerPath(records)[i].file)]
    decreases |records|
  {
    if records != [] {
      var n := |records| - 1;
      FirstPerPathSpec(records[..n]);
      assert FilesOf(records)[..n] == FilesOf(records[..n]);
      FilesOfAppend(FirstPerPath(records[..n]), [records[n]]);
    }
    forall i | 0 <= i < |FirstPerPath(records)|
      ensures FirstPerPath(records)[i].file in FilesOf(records)
      ensures FirstPerPath(records)[i] == records[FirstIndex(FilesOf(records), FirstPerPath(records)[i].file)]
    {
      FirstPerPathKeepsFirst(records, i);
    }
  }

  /** The `i`-th record kept by the `seenFiles` filter is the first record of its path. */
  lemma {:induction false} FirstPerPathKeepsFirst(records: seq<FileRecord>, i: nat)
    requires i < |FirstPerPath(records)|
    ensures FirstPerPath(records)[i].file in FilesOf(records)
    ensures FirstPerPath(records)[i] == records[FirstIndex(FilesOf(records), FirstPerPath(records)[i].file)]
    decreases |records|
  {
    var n := |records| - 1;
    var pre := records[..n];
    var kept := FirstPerPath(pre);
    var files := FilesOf(records);
    assert files[..n] == FilesOf(pre);
    if i < |kept| {
      FirstPerPathKeepsFirst(pre, i);
      var f := kept[i].file;
      assert FirstPerPath(records)[i] == kept[i];
      FirstIndexOfPrefix(files, n, f);
      var k := FirstIndex(FilesOf(pre), f);
      assert kept[i] == pre[k] && pre[k] == records[k];
    } else {
      assert records[n].file !in FilesOf(pre);
      assert FirstPerPath(records)[i] == records[n];
      var k := FirstIndex(files, records[n].file);
      assert forall j :: 0 <= j < n ==> files[j] in files[..n];
      assert k == n;
    }
  }

  /** On records that are already unique by path the `seenFiles` filter changes nothing. */
  lemma {:induction false} FirstPerPathOfUnique(records: seq<FileRecord>)
    requires Unique(FilesOf(records))
    ensures FirstPerPath(records) == records
    decreases |records|
  {
    if records != [] {
      var n := |records| - 1;
      assert Unique(FilesOf(records[..n])) by {
        assert forall k :: 0 <= k < n ==> FilesOf(records[..n])[k] == FilesOf(records)[k];
      }
      FirstPerPathOfUnique(records[..n]);
      assert records[n].file !in FilesOf(records[..n]) by {
        forall k | 0 <= k < n ensures FilesOf(records[..n])[k] != records[n].file {
          assert FilesOf(records)[k] != FilesOf(records)[n];
        }
      }
      assert records == records[..n] + [records[n]];
    }
  }

  /** What one folder adds to `recentFilesGit`. */
  function GitFolderContribution(folder: Folder, dateOf: string -> int, stat: map<string, int>): seq<FileRecord> {
    match GitFolderSettlement(folder.path, folder.log, folder.status, dateOf, stat)
    case Resolved(rs) => FirstPerPath(rs)
    case _ => []
  }

  /** Because the folder's records are already unique, the `seenFiles` filter passes them all through. */
  lemma GitFolderContributionIsRecords(folder: Folder, dateOf: string -> int, stat: map<string, int>)
    requires folder.log.Some? && folder.status.Some?
    ensures GitFolderContribution(folder, dateOf, stat) ==
      GitFolderRecords(folder.path, folder.log.value, folder.status.value, dateOf, stat)
  {
    var all := LogRecords(folder.path, folder.log.value, dateOf) + UncommittedRecords(folder.path, folder.status.value, stat);
    UniqueByPathSpec(all);
    FirstPerPathOfUnique(UniqueByPath(all));
  }

  /** `recentFilesGit` after the loop over the workspace folders, before sorting. */
  function GitRecords(folders: seq<Folder>, dateOf: string -> int, stat: map<string, int>): seq<FileRecord> {
    if folders == [] then []
    else GitRecords(folders[..|folders| - 1], dateOf, stat) + GitFolderContribution(folders[|folders| - 1], dateOf, stat)
  }

  /**
   * `seenFiles` is made afresh for every folder, so nothing is deduplicated
   * across roots: a folder listed twice contributes its records twice.
   */
  lemma GitKeepsRepeatsAcrossRoots(folder: Folder, dateOf: string -> int, stat: map<string, int>)
    ensures GitRecords([folder, folder], dateOf, stat) ==
      GitFolderContribution(folder, dateOf, stat) + GitFolderContribution(folder, dateOf, stat)
  {
    assert [folder, folder][..1] == [folder];
    assert [folder][..0] == [];
    assert GitRecords([folder], dateOf, stat) == GitFolderContribution(folder, dateOf, stat);
  }
}

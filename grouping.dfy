/**
 * `RecentFilesTreeProvider.getChildren` (extension.js:227-284). At the top
 * level the current list is reduced into an object keyed by `dirname`, and
 * one collapsed item per key is returned in key order. Below a directory
 * item, the files with that `dirname` are listed in list order, and each
 * file whose `mtime` equals the group's largest is marked "Most Recent".
 */
module Grouping {
  import opened Wrappers
  import opened Seqs
  import opened Records
  import opened Paths
  import opened Sorting

  /** A tree item: a collapsed directory, or a file leaf with its description, icon and tooltip. */
  datatype TreeItem =
    | DirectoryItem(directory: string)
    | FileItem(name: string, file: string, tooltip: string, description: string, icon: string)

  /** The `source` string of a record. */
  function SourceName(s: Source): string {
    match s
    case OS => "OS"
    case Git => "Git"
    case Uncommitted => "Uncommitted Changes"
  }

  function Dirnames(files: seq<FileRecord>): (ds: seq<string>)
    ensures |ds| == |files| && forall i :: 0 <= i < |files| ==> ds[i] == Dirname(files[i].file)
  {
    seq(|files|, i requires 0 <= i < |files| => Dirname(files[i].file))
  }

  // ---------------------------------------------------------------------
  // The top level: the reduce into an object of arrays
  // ---------------------------------------------------------------------

  /** The object `reduce` builds: its keys in insertion order and each key's array. */
  datatype Groups = Groups(keys: seq<string>, members: map<string, seq<FileRecord>>)

  /** One step of the reduce: create the directory's array if needed, then push the file. */
  function AddToGroup(g: Groups, f: FileRecord): Groups {
    var d := Dirname(f.file);
    if d in g.members then Groups(g.keys, g.members[d := g.members[d] + [f]])
    else Groups(g.keys + [d], g.members[d := [f]])
  }

  /** `currentFiles.reduce(..., {})`. */
  function GroupByDirectory(files: seq<FileRecord>): Groups {
    if files == [] then Groups([], map[])
    else AddToGroup(GroupByDirectory(files[..|files| - 1]), files[|files| - 1])
  }

  /** `currentFiles.filter(file => path.dirname(file.file) === directory)`. */
  function InDirectory(files: seq<FileRecord>, directory: string): seq<FileRecord> {
    if files == [] then []
    else
      var n := |files| - 1;
      InDirectory(files[..n], directory) + (if Dirname(files[n].file) == directory then [files[n]] else [])
  }

  /**
   * The reduce and the filter agree: the object's keys are the distinct
   * directories in order of first appearance, and the array under each key
   * is exactly what the sub-level filter selects for it.
   */
  lemma {:induction false} GroupsAreFilters(files: seq<FileRecord>)
    ensures var g := GroupByDirectory(files);
      && g.keys == Distinct(Dirnames(files))
      && (forall d :: d in g.members <==> d in g.keys)
      && (forall d :: d in g.members ==> g.members[d] == InDirectory(files, d))
    decreases |files|
  {
    if files != [] {
      var n := |files| - 1;
      var pre, f := files[..n], files[n];
      var d0 := Dirname(f.file);
      GroupsAreFilters(pre);
      assert Dirnames(files)[..n] == Dirnames(pre);
      var before := GroupByDirectory(pre);
      if d0 !in before.members {
        InDirectoryEmpty(pre, d0);
      }
      forall d | d in GroupByDirectory(files).members
        ensures GroupByDirectory(files).members[d] == InDirectory(files, d)
      {
        if d != d0 {
          assert GroupByDirectory(files).members[d] == before.members[d];
        }
      }
    }
  }

  /** A directory the list does not mention selects nothing. */
  lemma {:induction false} InDirectoryEmpty(files: seq<FileRecord>, d: string)
    requires d !in Dirnames(files)
    ensures InDirectory(files, d) == []
    decreases |files|
  {
    if files != [] {
      var n := |files| - 1;
      assert Dirnames(files[..n]) == Dirnames(files)[..n];
      InDirectoryEmpty(files[..n], d);
    }
  }

  /** The filter keeps the list order: it distributes over concatenation. */
  lemma {:induction false} InDirectoryAppend(a: seq<FileRecord>, b: seq<FileRecord>, d: string)
    ensures InDirectory(a + b, d) == InDirectory(a, d) + InDirectory(b, d)
    decreases |b|
  {
    if b == [] {
      assert a + b == a;
    } else {
      var n := |b| - 1;
      var pre, y := b[..n], b[n];
      assert a + b == (a + pre) + [y];
      assert b == pre + [y];
      InDirectoryAppend(a, pre, d);
      InDirectorySnoc(a + pre, y, d);
      InDirectorySnoc(pre, y, d);
    }
  }

  lemma InDirectorySnoc(s: seq<FileRecord>, y: FileRecord, d: string)
    ensures InDirectory(s + [y], d) == InDirectory(s, d) + (if Dirname(y.file) == d then [y] else [])
  {
    assert (s + [y])[..|s|] == s;
  }

  /** A record is in a directory's group exactly when it is in the list and has that `dirname`. */
  lemma {:induction false} InDirectoryMembers(files: seq<FileRecord>, d: string, r: FileRecord)
    ensures r in InDirectory(files, d) <==> r in files && Dirname(r.file) == d
    decreases |files|
  {
    if files != [] {
      var n := |files| - 1;
      InDirectoryMembers(files[..n], d, r);
      assert files == files[..n] + [files[n]];
    }
  }

  // ---------------------------------------------------------------------
  // The most recent time of a group
  // ---------------------------------------------------------------------

  /** `Math.max(...files.map(f => f.mtime.getTime()))` on a non-empty group. */
  function MaxTime(files: seq<FileRecord>): (m: int)
    requires files != []
    ensures forall i :: 0 <= i < |files| ==> files[i].mtime <= m
    ensures exists i :: 0 <= i < |files| && files[i].mtime == m
  {
    var n := |files| - 1;
    if n == 0 then files[0].mtime
    else
      var m := MaxTime(files[..n]);
      assert forall i :: 0 <= i < n ==> files[..n][i] == files[i];
      if files[n].mtime > m then files[n].mtime else m
  }

  /** The item for one file of a group whose most recent time is `newest`. */
  function FileItemFor(f: FileRecord, newest: int): TreeItem {
    var isMostRecent := f.mtime == newest;
    FileItem(
      Basename(f.file), f.file, f.file + "\n" + SourceName(f.source),
      if isMostRecent then "Most Recent" else "Older",
      if isMostRecent then "star-full" else "circle-outline")
  }

  /**
   * `getChildren(element)`. `element` is given by its label: `None` for the
   * top level, the directory label of a group item otherwise.
   */
  function Children(currentFiles: seq<FileRecord>, element: Option<string>): seq<TreeItem> {
    match element
    case None =>
      var keys := GroupByDirectory(currentFiles).keys;
      seq(|keys|, i requires 0 <= i < |keys| => DirectoryItem(keys[i]))
    case Some(directory) =>
      var files := InDirectory(currentFiles, directory);
      if files == [] then []
      else
        var newest := MaxTime(files);
        seq(|files|, i requires 0 <= i < |files| => FileItemFor(files[i], newest))
  }

  // ---------------------------------------------------------------------
  // Properties of the view
  // ---------------------------------------------------------------------

  /**
   * The top level lists one collapsed item per distinct directory, each
   * once, in order of first appearance in the list.
   */
  lemma TopLevelIsDistinctDirectories(files: seq<FileRecord>)
    ensures var items := Children(files, None);
      && |items| == |Distinct(Dirnames(files))|
      && forall i :: 0 <= i < |items| ==> items[i] == DirectoryItem(Distinct(Dirnames(files))[i])
  {
    GroupsAreFilters(files);
  }

  /**
   * Listing a directory gives one item per file of that directory, in list
   * order, named by its base name, with its path and source as tooltip,
   * and marked "Most Recent" exactly when no file of the group is newer.
   */
  lemma SubLevelIsFilter(files: seq<FileRecord>, directory: string)
    ensures var items := Children(files, Some(directory));
      var group := InDirectory(files, directory);
      && |items| == |group|
      && forall i :: 0 <= i < |items| ==>
        && items[i].FileItem? && items[i].file == group[i].file && items[i].name == Basename(group[i].file)
        && items[i].tooltip == group[i].file + "\n" + SourceName(group[i].source)
        && (items[i].description == "Most Recent" <==> forall j :: 0 <= j < |group| ==> group[j].mtime <= group[i].mtime)
  {
    var group := InDirectory(files, directory);
    var items := Children(files, Some(directory));
    forall i | 0 <= i < |items|
      ensures && items[i].FileItem? && items[i].file == group[i].file && items[i].name == Basename(group[i].file)
        && items[i].tooltip == group[i].file + "\n" + SourceName(group[i].source)
        && (items[i].description == "Most Recent" <==> forall j :: 0 <= j < |group| ==> group[j].mtime <= group[i].mtime)
    {
      SubLevelItem(files, directory, i);
    }
  }

  /** The item for the `i`-th file of a directory's group. */
  lemma SubLevelItem(files: seq<FileRecord>, directory: string, i: nat)
    requires i < |InDirectory(files, directory)|
    ensures var items := Children(files, Some(directory));
      var group := InDirectory(files, directory);
      && i < |items|
      && items[i].FileItem? && items[i].file == group[i].file && items[i].name == Basename(group[i].file)
      && items[i].tooltip == group[i].file + "\n" + SourceName(group[i].source)
      && (items[i].description == "Most Recent" <==> forall j :: 0 <= j < |group| ==> group[j].mtime <= group[i].mtime)
  {
    MostRecentIffNewest(files, directory, i);
  }

  /**
   * A file is marked "Most Recent" exactly when no file of its group is
   * newer; all files that tie for the newest time are marked.
   */
  lemma MostRecentIffNewest(files: seq<FileRecord>, directory: string, i: nat)
    requires i < |InDirectory(files, directory)|
    ensures var items := Children(files, Some(directory));
      var group := InDirectory(files, directory);
      && i < |items|
      && (items[i].description == "Most Recent" <==> forall j :: 0 <= j < |group| ==> group[j].mtime <= group[i].mtime)
      && (items[i].description == "Most Recent" <==> items[i].icon == "star-full")
      && (items[i].description != "Most Recent" ==> items[i].description == "Older" && items[i].icon == "circle-outline")
  {
    var group := InDirectory(files, directory);
    var m := MaxTime(group);
    var item := Children(files, Some(directory))[i];
    assert item == FileItemFor(group[i], m);
    if group[i].mtime == m {
      assert item.description == "Most Recent" && item.icon == "star-full";
    } else {
      var k :| 0 <= k < |group| && group[k].mtime == m;
      assert group[k].mtime > group[i].mtime;
      assert item.description == "Older" && item.icon == "circle-outline";
    }
  }

  /** A listed directory always has at least one file marked "Most Recent". */
  lemma SomeFileIsMostRecent(files: seq<FileRecord>, directory: string)
    requires InDirectory(files, directory) != []
    ensures exists i :: 0 <= i < |Children(files, Some(directory))| && Children(files, Some(directory))[i].description == "Most Recent"
  {
    var group := InDirectory(files, directory);
    var k :| 0 <= k < |group| && group[k].mtime == MaxTime(group);
    assert Children(files, Some(directory))[k].description == "Most Recent";
  }

  /** The filter keeps every copy of a record of the directory and no copy of any other. */
  lemma {:induction false} InDirectoryCount(files: seq<FileRecord>, d: string, x: FileRecord)
    ensures multiset(InDirectory(files, d))[x] == if Dirname(x.file) == d then multiset(files)[x] else 0
    decreases |files|
  {
    if files != [] {
      var n := |files| - 1;
      InDirectoryCount(files[..n], d, x);
      assert files == files[..n] + [files[n]];
    }
  }

  /** Lists holding the same records, in any order, give groups holding the same records. */
  lemma InDirectoryIgnoresOrder(a: seq<FileRecord>, b: seq<FileRecord>, d: string)
    requires multiset(a) == multiset(b)
    ensures multiset(InDirectory(a, d)) == multiset(InDirectory(b, d))
  {
    forall x ensures multiset(InDirectory(a, d))[x] == multiset(InDirectory(b, d))[x] {
      InDirectoryCount(a, d, x);
      InDirectoryCount(b, d, x);
    }
  }

  lemma MaxTimeIgnoresOrder(a: seq<FileRecord>, b: seq<FileRecord>)
    requires a != [] && multiset(a) == multiset(b)
    ensures b != [] && MaxTime(a) == MaxTime(b)
  {
    assert a[0] in multiset(b);
    var i :| 0 <= i < |a| && a[i].mtime == MaxTime(a);
    assert a[i] in multiset(b);
    var j :| 0 <= j < |b| && b[j].mtime == MaxTime(b);
    assert b[j] in multiset(a);
  }

  /**
   * The marking does not depend on the order of the list: for lists holding
   * the same records, every group has the same newest time, so each record
   * is marked alike. In particular the two sort directions mark the same
   * files.
   */
  lemma MarkingIgnoresOrder(a: seq<FileRecord>, b: seq<FileRecord>, directory: string)
    requires multiset(a) == multiset(b)
    requires InDirectory(a, directory) != []
    ensures InDirectory(b, directory) != []
    ensures MaxTime(InDirectory(a, directory)) == MaxTime(InDirectory(b, directory))
  {
    InDirectoryIgnoresOrder(a, b, directory);
    MaxTimeIgnoresOrder(InDirectory(a, directory), InDirectory(b, directory));
  }

  /** Both sort directions mark the same files in every group. */
  lemma MarkingIgnoresSortDirection(files: seq<FileRecord>, directory: string)
    requires InDirectory(files, directory) != []
    ensures InDirectory(SortSpec(files, true), directory) != []
    ensures InDirectory(SortSpec(files, false), directory) != []
    ensures MaxTime(InDirectory(SortSpec(files, true), directory)) == MaxTime(InDirectory(SortSpec(files, false), directory))
  {
    SortPermutes(files, true);
    SortPermutes(files, false);
    MarkingIgnoresOrder(files, SortSpec(files, true), directory);
    MarkingIgnoresOrder(files, SortSpec(files, false), directory);
  }
}

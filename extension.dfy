/**
 * The state `activate` keeps between commands (extension.js:12-15) and the
 * operations that change it: the two list updates (24-55, 99-131), the
 * two "show" commands (354-370), the sort-order toggle (372-387) and the
 * tree view's `getChildren` over the active list (227-284). The workspace
 * folder list is a parameter (`None` when no folder is open); file times
 * and commit dates come in as `stat` and `dateOf`.
 */
module Latr {
  import opened Wrappers
  import opened Records
  import opened Sorting
  import opened TreeWalker
  import opened Sources
  import opened Grouping
  import opened Seqs
  import opened Paths

  /** `currentMode`: which list the view shows and which update is allowed to run. */
  datatype Mode = OsMode | GitMode

  class Extension {
    var recentFilesOS: seq<FileRecord>
    var recentFilesGit: seq<FileRecord>
    var currentMode: Mode
    var sortDescending: bool

    /** The state right after activation: both lists empty, Git mode, newest first. */
    constructor ()
      ensures recentFilesOS == [] && recentFilesGit == []
      ensures currentMode == GitMode && sortDescending
    {
      recentFilesOS := [];
      recentFilesGit := [];
      currentMode := GitMode;
      sortDescending := true;
    }

    /** `currentMode === 'OS' ? recentFilesOS : recentFilesGit`. */
    function CurrentFiles(): seq<FileRecord>
      reads this
    {
      if currentMode == OsMode then recentFilesOS else recentFilesGit
    }

    /** The list the view shows is in the order the sort flag asks for. */
    predicate ActiveSorted()
      reads this
    {
      Sorted(CurrentFiles(), sortDescending)
    }

    /**
     * `updateRecentFilesOS`: outside OS mode, or with no folder open,
     * nothing happens; otherwise the list is rebuilt folder by folder from
     * the walk and the stats, then sorted.
     */
    method UpdateRecentFilesOS(workspace: Option<seq<Folder>>, stat: map<string, int>)
      modifies this
      ensures currentMode == old(currentMode) && sortDescending == old(sortDescending)
      ensures recentFilesGit == old(recentFilesGit)
      ensures currentMode != OsMode || workspace.None? ==> recentFilesOS == old(recentFilesOS)
      ensures currentMode == OsMode && workspace.Some? ==>
        recentFilesOS == SortSpec(OsRecords(workspace.value, stat), sortDescending)
    {
      if currentMode != OsMode || workspace.None? {
        return;
      }
      var folders := workspace.value;
      recentFilesOS := [];
      for i := 0 to |folders|
        invariant recentFilesOS == OsRecords(folders[..i], stat)
        invariant currentMode == old(currentMode) && sortDescending == old(sortDescending)
        invariant recentFilesGit == old(recentFilesGit)
      {
        assert folders[..i + 1][..i] == folders[..i];
        assert OsRecords(folders[..i + 1], stat) == OsRecords(folders[..i], stat) + OsFolderRecords(folders[i], stat);
        var fileStats := ReadFolderOS(folders[i], stat);
        recentFilesOS := recentFilesOS + fileStats;
      }
      assert folders[..|folders|] == folders;
      recentFilesOS := SortSeq(recentFilesOS, sortDescending);
    }

    /**
     * `updateRecentFilesGit`: outside Git mode, or with no folder open,
     * nothing happens; otherwise the list is rebuilt folder by folder, each
     * folder's records passed through a fresh `seenFiles` set, then sorted.
     */
    method UpdateRecentFilesGit(workspace: Option<seq<Folder>>, dateOf: string -> int, stat: map<string, int>)
      modifies this
      ensures currentMode == old(currentMode) && sortDescending == old(sortDescending)
      ensures recentFilesOS == old(recentFilesOS)
      ensures currentMode != GitMode || workspace.None? ==> recentFilesGit == old(recentFilesGit)
      ensures currentMode == GitMode && workspace.Some? ==>
        recentFilesGit == SortSpec(GitRecords(workspace.value, dateOf, stat), sortDescending)
    {
      if currentMode != GitMode || workspace.None? {
        return;
      }
      var folders := workspace.value;
      recentFilesGit := [];
      for i := 0 to |folders|
        invariant recentFilesGit == GitRecords(folders[..i], dateOf, stat)
        invariant currentMode == old(currentMode) && sortDescending == old(sortDescending)
        invariant recentFilesOS == old(recentFilesOS)
      {
        var folder := folders[i];
        assert folders[..i + 1] == folders[..i] + [folder];
        assert GitRecords(folders[..i + 1], dateOf, stat) ==
          GitRecords(folders[..i], dateOf, stat) + GitFolderContribution(folder, dateOf, stat);
        var settled := GetGitModifiedFiles(folder.path, folder.log, folder.status, dateOf, stat);
        if settled.Resolved? {
          PushUnseen(settled.records);
        } else {
          assert GitFolderContribution(folder, dateOf, stat) == [];
        }
      }
      assert folders[..|folders|] == folders;
      recentFilesGit := SortSeq(recentFilesGit, sortDescending);
    }

    /**
     * One folder's `gitFiles.forEach`: push each record whose path the
     * folder's fresh `seenFiles` set has not yet seen.
     */
    method PushUnseen(gitFiles: seq<FileRecord>)
      modifies this
      ensures recentFilesGit == old(recentFilesGit) + FirstPerPath(gitFiles)
      ensures recentFilesOS == old(recentFilesOS)
      ensures currentMode == old(currentMode) && sortDescending == old(sortDescending)
    {
      var seenFiles: set<string> := {};
      for k := 0 to |gitFiles|
        invariant recentFilesGit == old(recentFilesGit) + FirstPerPath(gitFiles[..k])
        invariant forall p :: p in seenFiles <==> p in FilesOf(gitFiles[..k])
        invariant recentFilesOS == old(recentFilesOS)
        invariant currentMode == old(currentMode) && sortDescending == old(sortDescending)
      {
        var prefix, next := gitFiles[..k], gitFiles[k];
        assert gitFiles[..k + 1] == prefix + [next];
        assert gitFiles[..k + 1][..k] == prefix;
        FilesOfAppend(prefix, [next]);
        if next.file !in seenFiles {
          seenFiles := seenFiles + {next.file};
          recentFilesGit := recentFilesGit + [next];
        }
      }
      assert gitFiles[..|gitFiles|] == gitFiles;
    }

    /** `latr.showRecentFilesOS`: switch to OS mode and rebuild the OS list. */
    method ShowRecentFilesOS(workspace: Option<seq<Folder>>, stat: map<string, int>)
      modifies this
      ensures currentMode == OsMode && sortDescending == old(sortDescending)
      ensures recentFilesGit == old(recentFilesGit)
      ensures workspace.None? ==> recentFilesOS == old(recentFilesOS)
      ensures workspace.Some? ==> recentFilesOS == SortSpec(OsRecords(workspace.value, stat), sortDescending)
      ensures workspace.Some? ==> ActiveSorted()
    {
      currentMode := OsMode;
      UpdateRecentFilesOS(workspace, stat);
      if workspace.Some? {
        SortSorts(OsRecords(workspace.value, stat), sortDescending);
      }
    }

    /** `latr.showRecentFilesGit`: switch to Git mode and rebuild the Git list. */
    method ShowRecentFilesGit(workspace: Option<seq<Folder>>, dateOf: string -> int, stat: map<string, int>)
      modifies this
      ensures currentMode == GitMode && sortDescending == old(sortDescending)
      ensures recentFilesOS == old(recentFilesOS)
      ensures workspace.None? ==> recentFilesGit == old(recentFilesGit)
      ensures workspace.Some? ==> recentFilesGit == SortSpec(GitRecords(workspace.value, dateOf, stat), sortDescending)
      ensures workspace.Some? ==> ActiveSorted()
    {
      currentMode := GitMode;
      UpdateRecentFilesGit(workspace, dateOf, stat);
      if workspace.Some? {
        SortSorts(GitRecords(workspace.value, dateOf, stat), sortDescending);
      }
    }

    /**
     * `latr.toggleSortOrder`: flip the flag and re-sort the active list in
     * the new direction; the other list keeps its order. Afterwards the
     * active list is in the new order, whatever order it was in before.
     */
    method ToggleSortOrder()
      modifies this
      ensures sortDescending == !old(sortDescending) && currentMode == old(currentMode)
      ensures currentMode == OsMode ==>
        recentFilesOS == SortSpec(old(recentFilesOS), sortDescending) && recentFilesGit == old(recentFilesGit)
      ensures currentMode == GitMode ==>
        recentFilesGit == SortSpec(old(recentFilesGit), sortDescending) && recentFilesOS == old(recentFilesOS)
      ensures ActiveSorted()
      ensures multiset(CurrentFiles()) == multiset(old(CurrentFiles()))
    {
      sortDescending := !sortDescending;
      if currentMode == OsMode {
        SortSorts(recentFilesOS, sortDescending);
        SortPermutes(recentFilesOS, sortDescending);
        recentFilesOS := SortSeq(recentFilesOS, sortDescending);
      } else {
        SortSorts(recentFilesGit, sortDescending);
        SortPermutes(recentFilesGit, sortDescending);
        recentFilesGit := SortSeq(recentFilesGit, sortDescending);
      }
    }

    /**
     * `getChildren(element)` over the active list: at the top level one
     * item per distinct directory, in order of first appearance; below a
     * directory one item per file of it, in list order, named by its base
     * name and marked "Most Recent" exactly when no file there is newer.
     */
    function GetChildren(element: Option<string>): (items: seq<TreeItem>)
      reads this
      ensures element.None? ==>
        var directories := Distinct(Dirnames(CurrentFiles()));
        && |items| == |directories|
        && forall i :: 0 <= i < |items| ==> items[i] == DirectoryItem(directories[i])
      ensures element.Some? ==>
        var group := InDirectory(CurrentFiles(), element.value);
        && |items| == |group|
        && forall i :: 0 <= i < |items| ==>
          && items[i].FileItem? && items[i].file == group[i].file && items[i].name == Basename(group[i].file)
          && items[i].tooltip == group[i].file + "\n" + SourceName(group[i].source)
          && (items[i].description == "Most Recent" <==> forall j :: 0 <= j < |group| ==> group[j].mtime <= group[i].mtime)
    {
      if element.None? then
        TopLevelIsDistinctDirectories(CurrentFiles());
        Children(CurrentFiles(), element)
      else
        SubLevelIsFilter(CurrentFiles(), element.value);
        Children(CurrentFiles(), element)
    }
  }

  /**
   * Toggling the sort order twice gives back the list the view showed, as
   * long as it was in the order of the flag: records with equal times keep
   * their relative order through both sorts.
   */
  lemma ToggleTwiceRestores(files: seq<FileRecord>, descending: bool)
    requires Sorted(files, descending)
    ensures SortSpec(SortSpec(files, !descending), descending) == files
  {
    SortOfSorted(files, descending);
    SortBackAndForth(files, descending);
  }
}

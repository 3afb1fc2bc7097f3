# Latr recent-files aggregation, in Dafny

Latr is a VS Code extension that lists the workspace's recently changed files in a tree view. All of its logic lives in the `activate` function of `extension.js`. It has two modes:

- **OS mode** walks every workspace folder, skips the excluded directory names, and stats each file found.
- **Git mode** does the following for each folder:
  - parses `git log --name-only` output into `Git` records;
  - parses `git status --short` output into `Uncommitted Changes` records;
  - appends the second list to the first;
  - deduplicates the result by path through a `Map`;
  - passes each folder's records through a `seenFiles` set.

Either list is sorted stably by modification time, newest first or oldest first. The view groups the active list by directory and marks the newest files of each group. A separate command opens the version of a file from the commit that added it, in its language.

This project models that logic and proves properties of it. The modules follow the pieces of the program:

| module | file | what it models |
|---|---|---|
| `Text` | text.dfy | `trim`, `startsWith`, ASCII `toLowerCase`, `split('\n').filter(Boolean)` |
| `Paths` | paths.dfy | `path.join`, `resolve`, `dirname`, `basename`, `extname`, `relative` on POSIX strings |
| `Records` | records.dfy | the `{file, mtime, source}` record |
| `GitLog` | gitlog.dfy | the `git log` parser, as a loop method and its specification function |
| `GitStatus` | gitstatus.dfy | the `git status` parser, as a loop method and its specification function |
| `Dedup` | dedup.dfy | `new Map(files.map(f => [f.file, f])).values()` |
| `TreeWalker` | walker.dfy | `getFilesInFolder` over a finite directory tree |
| `Sorting` | sorting.dfy | `sortRecentFiles`, as an in-place insertion sort on an array, proved against a stable-sort specification |
| `Sources` | sources.dfy | what each workspace folder contributes in OS and in Git mode |
| `Grouping` | grouping.dfy | `getChildren`: grouping by directory and marking the newest files |
| `History` | history.dfy | `getLanguageForFile`, the two Git helpers, and the outcome of `openFromGitHistory` |
| `Latr` | extension.dfy | the state in `activate` as class `Extension`, with the update, show and toggle commands |

The inputs are values:

- The file system is a directory tree (`Listing`) plus a map `stat` from path to modification time. A missing key stands for a failed `fs.stat`.
- The Git commands are the strings they print, or `None` when `exec` fails.
- Parsing a date line is the function parameter `dateOf`.
- The workspace folder list is an `Option`: `None` when no folder is open.

Behaviour of the code worth knowing:

- **Which commit date a path keeps.** The log lists commits newest first and the `Map` keeps the *last* value for each key. So when no uncommitted record exists, a path keeps the date of its *oldest* commit in the log, not its newest (`Sources.LastCommitRecordWins`).
- **A failed stat in OS mode.** The whole `Promise.all` batch of a folder rejects, so the folder contributes nothing (`Sources.OneFailedStatDropsFolder`). It is not just that one file that is left out.
- **An unreadable subdirectory.** It rejects the walk of the whole workspace folder (`TreeWalker.FailureStays`, `TreeWalker.WalkListsChains`). The walk does not carry on with the siblings.
- **No deduplication across workspace folders.** OS mode does none (`Sources.OsKeepsRepeats`). In Git mode, `seenFiles` is created afresh for each folder (`Sources.GitKeepsRepeatsAcrossRoots`).
- **Excluded names match files too.** The name check comes before the `isDirectory` test, so a *file* named `build` or `bin` is skipped as well (`TreeWalker.VisibleAvoidsExcluded`).
- **No workspace folder open.** The update returns before resetting the list, so the old list stays (it is not emptied).
- **Toggling twice.** This restores the order only when the list was in the flag's order beforehand (`Latr.ToggleTwiceRestores`). It is in that order after every update that runs with a folder open; an update with no folder open returns before sorting. A list that is not active is not re-sorted by the toggle, so it stays in the direction of its last sort.

## Model

| member | source | states |
|---|---|---|
| `Text.Lines` | extension.js:71 | the lines of a command output are the non-empty pieces between newlines, each as often as it occurs there, and hold no newline; an output without a newline is one line, or none when empty |
| `Text.LinesAppend` | extension.js:149 | the lines of two outputs joined by a newline are the first's lines followed by the second's, so the order of the pieces is kept |
| `Text.TrimShape` | extension.js:75 | `trim` removes only white space from the two ends and leaves a string with no white space at either end |
| `Text.TrimIdempotent` | extension.js:305 | trimming a trimmed string changes nothing |
| `Text.ToLower` | extension.js:343 | lower-casing keeps the length, changes only `A`-`Z`, and leaves no upper-case letter |
| `Paths.Resolve` | extension.js:76 | a relative path resolves to the folder, a separator and the path without its trailing separators (so `src/newdir/` gives `folder/src/newdir`); an absolute one without a trailing separator stays as it is; an empty one gives the folder; the result never ends in a separator unless it is the root |
| `Paths.DropTrailingSlashes` | extension.js:76 | removing trailing separators keeps a prefix, removes only separators, and keeps one when the path is only separators |
| `Paths.ResolveEntry` | extension.js:75-76 | an entry name resolved against a folder, with or without the trailing `/` that `git status` prints after an untracked directory, is the entry's path, with that folder as `dirname` and that name as `basename` |
| `Paths.Basename` | extension.js:257 | the base name is the suffix of the path after its last separator, and holds no separator |
| `Paths.Extname` | extension.js:343 | the extension is a suffix of the base name; it is empty exactly when the base name is `..` or has no dot after its first character, and otherwise it is a dot followed by neither a dot nor a separator, so it starts at the last dot |
| `Paths.DropUnderFolder` | extension.js:76 | dropping the trailing separators of a folder joined to a relative path drops only those of the path |
| `Paths.DirnameOfJoin` | extension.js:195 | for a non-empty `dir` and a name not containing '/', `dirname(join(dir, name))` is `dir` and `basename(join(dir, name))` is `name` |
| `Paths.Relative` | extension.js:409-410 | the relative path is what follows the folder and its separator, and is empty exactly for the folder itself |
| `Seqs.Distinct` | extension.js:241 | the distinct elements of a sequence, each once, and exactly those of the input |
| `Seqs.DistinctFirstOrder` | extension.js:241 | the distinct elements stand in order of first appearance |
| `GitLog.ParseGitLog` | extension.js:148-159 | the pushing loop returns exactly the records of the specification `LogRecords` |
| `GitLog.DateAfterIsLastDateLine` | extension.js:152-154 | the date in force after some lines is that of the last date line among them (or the starting date when there is none) |
| `GitLog.LogRecordsAreGit` | extension.js:157 | every record of the log parser is tagged `Git` |
| `GitLog.NoDateNoRecords` | extension.js:150-155 | lines read before any date line produce nothing and leave no date in force |
| `GitLog.PrefixBeforeFirstDateIgnored` | extension.js:150-159 | the lines before the first date line do not change the output |
| `GitLog.FileLineProduces` | extension.js:155-157 | after a date line, every non-date line produces the record for its trimmed path resolved against the folder, carrying the date of the nearest preceding date line, placed right after the earlier lines' records |
| `GitLog.LogRecordOrigin` | extension.js:153-157 | every record of the output is produced by some non-date line after a date line, with that line's path and the nearest preceding date |
| `GitLog.LogFromAppend` | extension.js:152-159 | reading two blocks of lines pushes the first block's records and then the second's, read from the date the first leaves |
| `GitStatus.ParseGitStatus` | extension.js:70-91 | the pushing loop returns exactly the records of the specification `UncommittedRecords` |
| `GitStatus.StatusRecordShape` | extension.js:74-85 | a line yields a record exactly when it starts with ` M ` or `?? ` and the stat of its path succeeds; the record is that path, its time and `Uncommitted` (it unfolds the definition, as a stepping-stone for `Sources.UncommittedTagged`) |
| `GitStatus.UntrackedDirectoryPath` | extension.js:73-76 | the line `?? dir/` that `git status` prints for an untracked directory gives the path `<folder>/dir`, listed under the folder and named `dir` |
| `GitStatus.StatusRecordOrigin` | extension.js:73-89 | every record of the output belongs to a reported line whose stat succeeded |
| `GitStatus.StatusLineProduces` | extension.js:73-85 | every reported line whose stat succeeds yields its record, right after the records of the lines before it |
| `GitStatus.UnproducingLineDropsAlone` | extension.js:73-88 | a line that is not reported or whose stat fails can be removed without changing the output: it takes nothing else with it |
| `GitStatus.StatusRecordsAppend` | extension.js:73-89 | each line contributes independently: the output of two blocks is the concatenation of theirs |
| `Dedup.FromRecordsSpec` | extension.js:166 | the `Map` built from the records holds the distinct paths as keys, in order of first occurrence, and each key's last record |
| `Dedup.UniqueByPathSpec` | extension.js:165-167 | the deduplicated list holds each path once, in order of first occurrence, and each path's last record |
| `Dedup.UniqueByPathMembers` | extension.js:165-167 | a path survives exactly when it is in the input, and every survivor is an input record |
| `Dedup.UniqueByPathFirstOrder` | extension.js:165-167 | output paths keep the order of their first appearance in the input |
| `Dedup.LaterRecordsWin` | extension.js:163-167 | when the appended records mention a path, the output holds the last of them for it |
| `Dedup.EarlierRecordsKept` | extension.js:163-167 | a path the appended records do not mention keeps the last earlier record for it |
| `TreeWalker.GetFilesInFolder` | extension.js:190-208 | the recursive loop returns exactly `Walk`: the files found, or a rejection |
| `TreeWalker.FailureStays` | extension.js:199-200 | once a subdirectory's walk rejects, the walk of its parent rejects |
| `TreeWalker.WalkListsChains` | extension.js:190-208 | the walk succeeds exactly when every directory it enters is readable, and then returns the paths of the visible files in depth-first entry order |
| `TreeWalker.ChainsAreVisible` | extension.js:194-205 | a path chain is listed exactly when it names a file reached without passing an excluded name |
| `TreeWalker.VisibleAvoidsExcluded` | extension.js:194-198 | no name on a listed file's chain is excluded, whether it names a directory or the file itself |
| `TreeWalker.WalkAvoidsExcluded` | extension.js:194-205 | every returned path is the join of a visible chain whose names are all outside `EXCLUDED_FOLDERS` |
| `TreeWalker.WalkFindsVisible` | extension.js:194-205 | when the walk succeeds, every visible file's path is returned |
| `TreeWalker.WalkUnique` | extension.js:190-208 | in a tree with distinct, separator-free names under each directory, no path is returned twice |
| `TreeWalker.ChainsUnique` | extension.js:194-205 | in such a tree no chain is listed twice |
| `TreeWalker.JoinAllInjective` | extension.js:195 | under a non-empty directory, different chains of separator-free names join to different paths |
| `Sorting.SortRecentFiles` | extension.js:179-183 | the in-place sort leaves the array holding `SortSpec` of its old contents |
| `Sorting.InsertNext` | extension.js:180-182 | one pass moves the next element left into the sorted prefix, as `Insert` specifies, and leaves the rest alone |
| `Sorting.SortSeq` | extension.js:179-183 | sorting a list through an array gives `SortSpec` |
| `Sorting.SortPermutes` | extension.js:180 | the sort is a permutation: the same multiset of records |
| `Sorting.SortSorts` | extension.js:181 | the result is ordered by `mtime` in the flag's direction |
| `Sorting.SortedIffAdjacent` | extension.js:181 | a list is sorted exactly when adjacent times are non-increasing (descending) or non-decreasing (ascending) |
| `Sorting.SortIsStable` | extension.js:180 | records with equal `mtime` keep their relative order |
| `Sorting.StableSortIsUnique` | extension.js:180-182 | any sorted list that keeps the input's order among equal times is `SortSpec` itself, so the specification fixes the result of any stable sort |
| `Sorting.SortOfSorted` | extension.js:180-182 | sorting an already sorted list leaves it unchanged |
| `Sorting.SortBackAndForth` | extension.js:375-384 | sorting in the opposite direction and back gives one sort in the original direction |
| `Sources.StatAll` | extension.js:39-44 | the stat batch resolves exactly when every file stats, with one `OS` record per file, in order |
| `Sources.ReadFolderOS` | extension.js:35-46 | one folder's `try` block gives exactly `OsFolderRecords`: the walk's files with their stats, or nothing when the walk or a stat fails |
| `Sources.OsRecordOrigin` | extension.js:34-49 | every OS record is the stat of a file the walk of some folder returned, and that folder's whole batch succeeded |
| `Sources.OsFolderRecordWalked` | extension.js:37-46 | a folder's OS record names a file its walk returned |
| `Sources.OsRecordsComplete` | extension.js:34-49 | when a folder's walk succeeds and all its files stat, each of its files has its record in the list |
| `Sources.OneFailedStatDropsFolder` | extension.js:39-49 | one failed stat makes the folder contribute nothing |
| `Sources.OsKeepsRepeats` | extension.js:34-46 | OS mode does no dedup: a folder listed twice contributes twice |
| `Sources.GetGitModifiedFiles` | extension.js:133-174 | the folder's pipeline gives the corrected settlement: rejected when a command fails, else the deduplicated log and status records |
| `Sources.StatusFailureNeverSettles` | extension.js:161 | as written, a successful `git log` followed by a failing `git status` never settles |
| `Sources.GitFolderAlwaysSettles` | extension.js:137-172 | the corrected pipeline always settles, rejects exactly when a command fails, and otherwise agrees with the code as written |
| `Sources.GitFolderRecordsUnique` | extension.js:161-167 | a folder's Git records hold each path once, the paths being exactly those of the log and status records |
| `Sources.UncommittedTagged` | extension.js:80-84 | every status record is tagged `Uncommitted` |
| `Sources.UncommittedWins` | extension.js:161-167 | a path that `git status` reports holds its uncommitted record, not a `Git` one |
| `Sources.LastCommitRecordWins` | extension.js:152-167 | any other path holds the `Git` record of its last (oldest) line in the log |
| `Sources.FirstPerPathSpec` | extension.js:117-122 | the `seenFiles` filter keeps one record per path, in order of first appearance, and that record is the one where the path first appears in the input |
| `Sources.FirstPerPathOfUnique` | extension.js:117-122 | on records already unique by path, the filter changes nothing |
| `Sources.GitFolderContributionIsRecords` | extension.js:112-122 | when both commands succeed, a folder adds exactly its deduplicated records |
| `Sources.GitKeepsRepeatsAcrossRoots` | extension.js:110-122 | a folder listed twice contributes twice, since `seenFiles` is per folder |
| `Grouping.GroupsAreFilters` | extension.js:232-250 | the `reduce` object's keys are the distinct directories in order of first appearance, and each key's array is what the sub-level filter selects |
| `Grouping.TopLevelIsDistinctDirectories` | extension.js:230-246 | the top level is one collapsed item per distinct directory, in order of first appearance |
| `Grouping.SubLevelIsFilter` | extension.js:247-283 | below a directory, one item per file with that `dirname`, in list order, named by its base name, with its path and source as tooltip, and marked "Most Recent" exactly when no file of the group is newer |
| `Grouping.InDirectoryMembers` | extension.js:250 | a record is listed under a directory exactly when it is in the list and has that `dirname` |
| `Grouping.InDirectoryAppend` | extension.js:250 | the directory filter distributes over concatenation, so it keeps the list order |
| `Grouping.MaxTime` | extension.js:251 | the group's most recent time bounds every member's time and is some member's time |
| `Grouping.MostRecentIffNewest` | extension.js:252-268 | a file is marked "Most Recent" with `star-full` exactly when no file of its group is newer; otherwise "Older" with `circle-outline` |
| `Grouping.SomeFileIsMostRecent` | extension.js:251-268 | every non-empty group has a file marked "Most Recent" |
| `Grouping.InDirectoryIgnoresOrder` | extension.js:250 | lists holding the same records in any order give groups holding the same records |
| `Grouping.MarkingIgnoresOrder` | extension.js:250-252 | lists holding the same records give every group the same most recent time |
| `Grouping.MarkingIgnoresSortDirection` | extension.js:250-252 | the two sort directions mark the same files of every group |
| `History.LanguageForFileSpec` | extension.js:342-349 | the language is a non-empty `*<ext>` association when there is one; otherwise it is the lower-cased extension without its dot, or `plaintext` when that is empty; it is never empty |
| `History.LanguageIgnoresCase` | extension.js:343 | a file whose extension is the upper- or mixed-case spelling of another file's extension gets that file's language |
| `History.CommitHash` | extension.js:305-307 | no hash exactly when the output is all white space; otherwise the non-empty infix of the output left after cutting all white space before it and all white space after it, with no white space at either end |
| `History.CommitHashIdempotent` | extension.js:305-307 | a hash is already normalised: trimming it again gives it back |
| `History.MessagesDistinct` | extension.js:393-443 | the six messages of the command are pairwise different |
| `History.OpenStops` | extension.js:392-443 | the command stops, in order, with "no file selected", "not part of the workspace", "failed to resolve relative path", "no Git history" and "failed to retrieve content"; a failing command gives the generic error (it unfolds the definition case by case) |
| `History.OpenIgnoresLogSpacing` | extension.js:305-307 | the outcome depends on the `git log` output only through its trimmed text: white space around the hash changes nothing |
| `History.OpenedIff` | extension.js:392-440 | an editor opens exactly when every check passes; it shows what `git show` printed for the trimmed hash, in the file's language |
| `Latr.Extension.constructor` | extension.js:12-15 | both lists start empty, in Git mode, newest first |
| `Latr.Extension.UpdateRecentFilesOS` | extension.js:24-55 | outside OS mode, or with no folder open, nothing changes; otherwise the OS list becomes the sorted concatenation of the folders' records, and nothing else changes |
| `Latr.Extension.UpdateRecentFilesGit` | extension.js:99-131 | outside Git mode, or with no folder open, nothing changes; otherwise the Git list becomes the sorted concatenation of the folders' contributions, and nothing else changes |
| `Latr.Extension.PushUnseen` | extension.js:112-122 | the `forEach` with a fresh `seenFiles` appends the first record of each path, in order |
| `Latr.Extension.ShowRecentFilesOS` | extension.js:354-361 | switch to OS mode and rebuild the OS list; with a folder open, the view is then in the flag's order |
| `Latr.Extension.ShowRecentFilesGit` | extension.js:363-370 | switch to Git mode and rebuild the Git list; with a folder open, the view is then in the flag's order |
| `Latr.Extension.ToggleSortOrder` | extension.js:372-387 | flip the flag and re-sort only the active list, giving the same records in the new order; the other list is unchanged |
| `Latr.Extension.GetChildren` | extension.js:227-284 | the view over the active list: at the top level one directory item per distinct directory, in order of first appearance; below a directory one item per file of it, in list order, named by its base name, with path and source as tooltip, and marked "Most Recent" exactly when no file there is newer |
| `Latr.ToggleTwiceRestores` | extension.js:375-384 | toggling twice gives back a list that was in the flag's order |

## Left out

- The VS Code API is not modelled: tree items, their collapsible state, labels with `toLocaleDateString`/`toLocaleTimeString`, `resourceUri`, the `vscode.open` command and `contextValue`, and the `EventEmitter`/`refresh`. The same goes for command registration, the information and error messages (only the texts of the history command's errors are kept), the activation log, and the `console.warn`/`console.error` diagnostics (extension.js:28, 48, 86, 104, 124, 141, 301, 327, 442), whose paths are modelled as the error or empty results they accompany. This is host UI glue and logging. The view keeps the item's name, file, tooltip, description and icon.
- `child_process.exec`, `fs.readdir` and `fs.stat` are foreign I/O. They are parameters: the printed output (or `None`), a finite directory tree, and a stat map.
- `new Date(line.trim())` and `Invalid Date`/`NaN` times are host library behaviour. A date line's time is the parameter `dateOf`, which is total and integer-valued.
- The model does not cover concurrency:
  - the order in which `Promise.all` issues its stats;
  - updates that overlap because of `await`;
  - the file-system watcher that calls `updateRecentFilesOS` on every change (extension.js:448-452).
  Each command runs to completion as one step.
- `path.resolve`, `path.join` and `path.relative` are simplified to POSIX strings without normalisation of `.`, `..` or repeated separators. `path.resolve` does drop trailing separators, so an untracked directory that `git status` prints as `?? dir/` becomes the record `<folder>/dir`; `path.dirname` and `path.basename` are modelled only for paths without a trailing separator, which is what the records hold. `getWorkspaceFolder` is the parameter `owner`, the folder holding the item.
- Symbolic links, and the cycles they can make, are not modelled: the tree is finite.
- `toLowerCase` lowers only `A`-`Z`. Case mapping beyond ASCII is not modelled.
- `Object.keys` lists integer-like keys first. `dirname` of an absolute path is never such a key, so the model uses insertion order.
- Latr.Extension.ToggleSortOrder: the `!currentFiles || !Array.isArray(currentFiles)` branch (extension.js:377-380) cannot be taken, because both lists are always arrays, so it is not modelled.
- `openTextDocument` and `showTextDocument` failing after the content was found, which would give the generic error, are not modelled. `History.OpenedIff` treats reaching them as opening.
- Latr.Extension.UpdateRecentFilesGit: uses the corrected per-folder pipeline of the finding below, not the one as written. As written, the update never finishes once a folder's `git status` fails after its `git log` succeeded.
- Latr.Extension.ShowRecentFilesGit: runs `UpdateRecentFilesGit`, so it inherits the corrected pipeline too. As written, when a folder's `git status` fails after its `git log` succeeded, the command waits forever: the Git list is neither sorted nor refreshed, and its promise that the view is in the flag's order does not hold.
- `deactivate` does nothing and is not modelled.

## Findings

| source | as written | input that shows it | evidently intended | confidence | as-written member | corrected member |
|---|---|---|---|---|---|---|
| extension.js:139-172 | `git status` is awaited inside the async callback of `exec`. When it rejects, only the callback's own promise rejects. Neither `resolve` nor `reject` of the promise returned by `getGitModifiedFiles` is ever called, so `updateRecentFilesGit` waits forever and never sorts or refreshes. | a workspace folder where `git log` prints its history but `git status --short` fails | the folder's promise rejects, the `catch` at extension.js:123-125 logs it, and the folder contributes no records | not executed | `Sources.StatusFailureNeverSettles` (about `Sources.GitFolderSettlementAsWritten`) | `Sources.GitFolderAlwaysSettles` (about `Sources.GitFolderSettlement`, used by `Sources.GetGitModifiedFiles`) |

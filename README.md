# A verified model of the git-for-beginners version-control engine

The tutorial teaches version control by animating a small simulation: files
live in a working directory, get staged, are committed into a linear history
and can be reverted. This project models the engine behind those animations
and the chapter logic around it, and proves what each operation promises.

The model has six modules, one per source file plus shared values:

- `Constants`: the four file statuses (ADDED, MODIFIED, DELETED, UNMODIFIED),
  `Option`, `Result`, the `{added, removed}` diff and `Math.max(0, x)`.
- `GitVisualisation` (`src/models/vis/GitVisualisation.js`): a file visual's
  status and diff, derived by comparing the blob in its container's tree with
  the blob in the container's parent tree. Trees are `map<FileId, BlobId>`,
  so "the same blob instance" is equality of blob ids. The class `GitVis`
  holds the repository's trees and commits and one list of visuals per area
  and per commit. Its methods add, stage, unstage, delete, modify, commit and
  revert, moving visuals between those lists as the source does.
- `VersioningInGit` (`src/models/chapters/versioningInGitChapter.js`): the
  chapter's action handlers. They work on a working-directory list, a staging
  list and a commit history of file copies. Staging is specified by the value
  function `StagePolicy` with its two rejection messages. Staging all files,
  unstaging, committing and reverting are each specified by a function of the
  old state: `StageAllFrom`, `Unstaged`, `CommittedFiles` and `RevertChain`.
  The class methods, with their loops, are proved to compute those functions.
- `Chapter` (`src/models/Chapter.js`): which sections are visible
  (`visibleSections` is proved against the recursive `Visible`), the doable
  and done counts, progress and completion, and `dispatch`/`call`/`reset`.
- `VersionDatabase` (`src/models/vis/VersionDatabaseVisualisation.js`): the
  version-database file list with its names, positions and list operations;
  the children hold the very file objects of the list, so a change made in
  place shows in them until the next layout.
- `WorkingInATeam` (`src/models/chapters/workingInATeamChapter.js`): the
  clamped diff counters of the team chapter's file.

Three handler details the model follows as the chapter's code has them:

- `stageFile` decides "already staged" by looking for a staged copy in the
  staging list and checking whether the working file is modified
  (versioningInGitChapter.js:195-203).
- `unstageFile` resets the working copy from the staged copy
  (versioningInGitChapter.js:256-260).
- A commit after the first is the last commit's file list, each file reset
  from its staged copy; the staged files it did not match follow at the end
  (versioningInGitChapter.js:286-309).

## Model

| member | source | states |
|---|---|---|
| Constants.ClampAtZero | src/models/chapters/workingInATeamChapter.js:21-22 | `Math.max(0, x)` is never below x and is either x itself or 0 |
| WorkingInATeam.TeamFile.constructor | src/models/chapters/workingInATeamChapter.js:15-16 | a new file has diff 0/0, status UNMODIFIED and no random deltas drawn yet |
| WorkingInATeam.TeamFile.Modify | src/models/chapters/workingInATeamChapter.js:18-24 | each counter becomes max(0, old + delta) for any random delta: never negative, never below old + delta; the deltas join the history each counter is the fold of; the status becomes MODIFIED |
| WorkingInATeam.TeamFile.MaxChanges | src/models/chapters/workingInATeamChapter.js:26-28 | the sum of the two counters, each the clamped fold of its random deltas from 0; non-negative, at least each counter, and 0 exactly when both counters are 0 |
| WorkingInATeam.CounterAfterNonNegative | src/models/chapters/workingInATeamChapter.js:18-24 | after any run of `modify` calls a counter that started at 0 or above is still non-negative |
| WorkingInATeam.CounterAfterAppend | src/models/chapters/workingInATeamChapter.js:18-24 | one more `modify` takes the counter reached so far to max(0, counter + delta), so the fold is the step `Modify` takes, repeated |
| Chapter.ReadOnActions | src/models/Chapter.js:40-43 | exactly the recorded actions of type READ_ON, each as often as it was recorded and none more |
| Chapter.NumberOfVisibleTextSections | src/models/Chapter.js:40-43 | the budget is between 1 and the number of actions plus 1, and is 1 exactly when no READ_ON action was recorded |
| Chapter.NumberOfVisibleTextSectionsAppend | src/models/Chapter.js:40-43 | recording one more action raises the budget by one exactly when the action is READ_ON |
| Chapter.VisibleSections | src/models/Chapter.js:45-81 | the loop with its counter and `prevTaskSectionDone` flag computes the `takeWhile` specification `Visible` |
| Chapter.Visible | src/models/Chapter.js:45-81 | the visible sections are a prefix of the sections; the only error is "Unknown section type." |
| Chapter.VisibleIsBudgetedPrefix | src/models/Chapter.js:45-67 | the visible sections are a prefix of the sections and hold no more non-skip text sections than the budget |
| Chapter.VisibleStopsForAReason | src/models/Chapter.js:50-77 | the prefix ends either at the end of the sections, or after an undone task, or before a text section once the budget is spent |
| Chapter.UndoneTaskIsLastVisible | src/models/Chapter.js:69-77 | a visible task that is not done is the last visible section |
| Chapter.VisibleFailsOnlyOnOther | src/models/Chapter.js:79 | computing the visible sections throws "Unknown section type." exactly when it reaches a section that is neither text nor task, and never without one |
| Chapter.DoableSections | src/models/Chapter.js:83-92 | exactly the non-skip text sections and the task sections, each with its multiplicity in the sections, no others |
| Chapter.DoneSections | src/models/Chapter.js:94-107 | exactly the visible non-skip text sections and done task sections, each with its multiplicity among the visible sections, no others |
| Chapter.DoneAtMostDoable | src/models/Chapter.js:83-107 | the done sections of a prefix never outnumber the doable sections of the whole |
| Chapter.Quotient | src/models/Chapter.js:109-112 | done / doable as a JavaScript number: the exact quotient when doable > 0, NaN for 0 / 0, Infinity for a positive count over 0 |
| Chapter.Completed | src/models/Chapter.js:114-117 | `progress >= 1`: false for NaN, true for Infinity, and for a finite progress true exactly when it is at least 1 |
| Chapter.QuotientAtLeastOne | src/models/Chapter.js:114-117 | `completed` (progress >= 1) holds exactly when done >= doable |
| Chapter.Progress | src/models/Chapter.js:143-144 | progress can be computed exactly when the visible sections can |
| Chapter.CompletedIffAllDone | src/models/Chapter.js:109-117 | the chapter is completed exactly when there is a doable section and every doable section is done |
| Chapter.Call | src/models/Chapter.js:161-170 | without a handler for the action's type the result is undefined; with one it is the handler's outcome |
| Chapter.Chapter.Dispatch | src/models/Chapter.js:119-159 | a ConsoleError is swallowed (undefined result; sections, actions and progress unchanged); any other error propagates with nothing changed; on success the chapter holds the sections the handler left, the action is appended and progress becomes done / doable over those new sections, or the visible-section error is thrown |
| Chapter.Chapter.Reset | src/models/Chapter.js:172-175 | the action list is empty; sections and progress stay |
| VersionDatabase.PlainName | src/models/vis/VersionDatabaseVisualisation.js:59-65 | every name starts with `file`, and the name is exactly `file` only for name index 0 |
| VersionDatabase.Name | src/models/vis/VersionDatabaseVisualisation.js:49-66 | outside version-database mode the plain name of the name index; in it `file` exactly for the front file, and a name starting with `Version ` for every other |
| VersionDatabase.PlainNamePeriodic | src/models/vis/VersionDatabaseVisualisation.js:63-65 | from index 1 on the names repeat with period nine |
| VersionDatabase.PlainNamesDistinct | src/models/vis/VersionDatabaseVisualisation.js:8-18 | the first ten name indexes give ten different names |
| VersionDatabase.VariantsDistinct | src/models/vis/VersionDatabaseVisualisation.js:8-18 | no two of the nine suffixes are equal |
| VersionDatabase.MaxChanges | src/models/vis/VersionDatabaseVisualisation.js:73-76 | no file has more changes than the result, and some file has exactly that many |
| VersionDatabase.Changes | src/models/vis/VersionDatabaseVisualisation.js:68-71 | for non-negative counters the total is at least each counter and 0 only for the empty diff |
| VersionDatabase.GetPosition | src/models/vis/VersionDatabaseVisualisation.js:35-47 | in version-database mode only the front file is at row 0, column 0, every other file is in column 1 at the row one above its index; otherwise the column is the index and the row the base layout's |
| VersionDatabase.Unlisted | src/models/vis/VersionDatabaseVisualisation.js:129 | what stays in a list of identities when `set` moves the given files elsewhere: exactly its entries that are none of those files |
| VersionDatabase.PositionsDistinct | src/models/vis/VersionDatabaseVisualisation.js:35-47 | two different files of the list never share a grid position, in either mode |
| VersionDatabase.IndexOf | src/models/vis/VersionDatabaseVisualisation.js:37 | `indexOf` by identity: the first index holding the file, or -1 exactly when none does |
| VersionDatabase.IndexOfId | src/models/vis/VersionDatabaseVisualisation.js:56 | `indexOf` in the database area's children: the first index holding the identity, or -1 exactly when it is absent |
| VersionDatabase.CopyOf | src/models/vis/VersionDatabaseVisualisation.js:78-85 | a copy keeps the name index and has status MODIFIED, an empty diff and a new identity |
| VersionDatabase.VersionDatabaseVisualisation.constructor | src/models/vis/VersionDatabaseVisualisation.js:89-108 | no files, not in version-database mode, name index 0 |
| VersionDatabase.VersionDatabaseVisualisation.HandleFiles | src/models/vis/VersionDatabaseVisualisation.js:119-130 | in version-database mode the children are the database area and the front file, and the database holds every other file, by identity; otherwise the children are the files, which `set` moves out of the database area |
| VersionDatabase.VersionDatabaseVisualisation.Shown | src/models/vis/VersionDatabaseVisualisation.js:121-129 | a child is the file object itself: it shows the file with its identity while that file is in the list, and the visual as it left the list afterwards |
| VersionDatabase.VersionDatabaseVisualisation.ChildrenShowFiles | src/models/vis/VersionDatabaseVisualisation.js:100-130 | after a layout outside version-database mode, while the files keep their identities, child i shows file i as it is now, so in-place changes show without a new layout |
| VersionDatabase.VersionDatabaseVisualisation.DatabaseChildrenShowFiles | src/models/vis/VersionDatabaseVisualisation.js:100-130 | after a layout in version-database mode, while the files keep their identities, the front child shows the front file and database child j shows file j + 1 as they are now |
| VersionDatabase.VersionDatabaseVisualisation.ShownInList | src/models/vis/VersionDatabaseVisualisation.js:121 | a file of the list is what a child holding its identity shows |
| VersionDatabase.VersionDatabaseVisualisation.VersionNamesAfterLayout | src/models/vis/VersionDatabaseVisualisation.js:49-57 | after that layout, file k > 0 is named `Version <number of files - k>`: versions count down to 1 |
| VersionDatabase.VersionDatabaseVisualisation.DisplayName | src/models/vis/VersionDatabaseVisualisation.js:49-66 | outside version-database mode the plain name; in it the front file is `file`, and a file is named `file` exactly when it is the first file with its identity |
| VersionDatabase.VersionDatabaseVisualisation.AddFile | src/models/vis/VersionDatabaseVisualisation.js:132-138 | an ADDED file with the current name index is prepended; the name index grows by one; file identities stay distinct |
| VersionDatabase.VersionDatabaseVisualisation.ModifyFile | src/models/vis/VersionDatabaseVisualisation.js:140-146 | only the chosen file changes, in place: it takes the diff and status MODIFIED, the identities stay, and a child holding it shows the change |
| VersionDatabase.VersionDatabaseVisualisation.CopyFile | src/models/vis/VersionDatabaseVisualisation.js:148-161 | a MODIFIED copy with a fresh name index is prepended, hidden exactly when the original is DELETED; the visualisation is no longer active |
| VersionDatabase.VersionDatabaseVisualisation.DeleteFile | src/models/vis/VersionDatabaseVisualisation.js:163-171 | the file is marked DELETED and a child holding it shows it DELETED; in version-database mode it stays in the list in place; otherwise it leaves the list, keeping the mark |
| VersionDatabase.VersionDatabaseVisualisation.RestoreFile | src/models/vis/VersionDatabaseVisualisation.js:173-185 | the front file is marked DELETED and leaves the list, and a child still holding it shows it DELETED; a copy of the chosen file with its diff, status MODIFIED and a link back to it takes its place; the length and the other files stay |
| GitVisualisation.BlobIn | src/models/vis/GitVisualisation.js:51-65 | the blob is present exactly when there is a tree and it holds the file, and is then the tree's entry |
| GitVisualisation.FileStatus | src/models/vis/GitVisualisation.js:67-81 | DELETED exactly without a blob; ADDED exactly with a blob and no parent blob; UNMODIFIED exactly when both are the same blob; MODIFIED exactly when both exist and differ |
| GitVisualisation.FileDiff | src/models/vis/GitVisualisation.js:83-89 | the empty diff whenever either blob is missing, otherwise the blob's own diff against the parent blob |
| GitVisualisation.MaxOf | src/models/vis/GitVisualisation.js:108-112 | `Math.max` of a non-empty list: an element of the list and at least every element |
| GitVisualisation.Changes | src/models/vis/GitVisualisation.js:104-106 | for non-negative counters the total is at least each counter and 0 only for the empty diff |
| GitVisualisation.NearestContainerIsFirst | src/models/vis/GitVisualisation.js:21-33 | the container found is the nearest ancestor that is a container; none is found only when no ancestor is one |
| GitVisualisation.NearestContainer | src/models/vis/GitVisualisation.js:21-33 | a container found is among the ancestors and is a container |
| GitVisualisation.FindContainer | src/models/vis/GitVisualisation.js:21-33 | the while loop up the parents finds exactly the nearest container |
| GitVisualisation.SortedIds | src/models/vis/GitVisualisation.js:276 | the set's elements, none missing and none added, in strictly increasing order |
| GitVisualisation.IncreasingOrdered | src/models/vis/GitVisualisation.js:265-277 | in the sorted list every element is smaller than every later one, so none occurs twice |
| GitVisualisation.OfFile | src/models/vis/GitVisualisation.js:300 | exactly the visuals of the file, no more than the list holds |
| GitVisualisation.WithoutFile | src/models/vis/GitVisualisation.js:304 | exactly the visuals of other files, no more than the list holds |
| GitVisualisation.RemoveFirstOf | src/models/vis/GitVisualisation.js:319 | moving a file's first visual out shortens the list by one, and leaves it unchanged without such a visual |
| GitVisualisation.FirstOf | src/models/vis/GitVisualisation.js:319 | the position of the first visual of the file, none exactly when the list has no visual of it |
| GitVisualisation.RemoveFirstOfSplices | src/models/vis/GitVisualisation.js:319 | moving a visual out removes exactly the first visual of the file and keeps every other visual in order |
| GitVisualisation.RemoveOnlyVisual | src/models/vis/GitVisualisation.js:339-347 | moving out the only staged visual of a file removes every staged visual of it |
| GitVisualisation.RemoveFirstThenRest | src/models/vis/GitVisualisation.js:339-347 | moving the first visual out and then removing the others removes every visual of the file |
| GitVisualisation.NoneLeftAfterRemoval | src/models/vis/GitVisualisation.js:302-304 | after removing a deleted file's visuals none of them is left |
| GitVisualisation.RemoveFirstAppend | src/models/vis/GitVisualisation.js:313-319 | adding the second visual of a file does not change which visual moves to the staging area |
| GitVisualisation.StillShown | src/models/vis/GitVisualisation.js:313-319 | with two visuals of a file, one stays in the working directory after the first moves |
| GitVisualisation.KeepFiles | src/models/vis/GitVisualisation.js:397-402 | exactly the visuals whose file is in the set |
| GitVisualisation.DropFiles | src/models/vis/GitVisualisation.js:439-441 | exactly the visuals whose file is not in the set |
| GitVisualisation.OfFileMultiset | src/models/vis/GitVisualisation.js:300 | `filter` keeps every copy of a visual of the file and no copy of any other visual |
| GitVisualisation.WithoutFileMultiset | src/models/vis/GitVisualisation.js:304 | `remove` of a file's visuals keeps every copy of every other visual and none of the file's |
| GitVisualisation.KeepFilesMultiset | src/models/vis/GitVisualisation.js:397-402 | keeping the visuals of a set of files keeps each of them as often as the list holds it, and nothing else |
| GitVisualisation.DropFilesMultiset | src/models/vis/GitVisualisation.js:439-441 | dropping the visuals of a set of files keeps every other visual as often as the list holds it, and nothing else |
| GitVisualisation.OfFileConcat | src/models/vis/GitVisualisation.js:300 | the filter keeps list order: filtering two lists end to end gives the two filtered lists end to end |
| GitVisualisation.WithoutFileConcat | src/models/vis/GitVisualisation.js:304 | removing a file's visuals from two lists end to end gives the two remainders end to end |
| GitVisualisation.KeepFilesConcat | src/models/vis/GitVisualisation.js:397-402 | keeping visuals by file keeps list order across a concatenation |
| GitVisualisation.DropFilesConcat | src/models/vis/GitVisualisation.js:439-441 | dropping visuals by file keeps list order across a concatenation |
| GitVisualisation.FilesOf | src/models/vis/GitVisualisation.js:400 | the files some visual of the list shows |
| GitVisualisation.Copies | src/models/vis/GitVisualisation.js:404-407 | one new visual per visual, for the same file, with consecutive new identities |
| GitVisualisation.FindByChecksum | src/models/vis/GitVisualisation.js:420-425 | the first commit with the checksum, or none exactly when no commit has it |
| GitVisualisation.CommitRowOffset | src/models/vis/GitVisualisation.js:135-143 | a commit moves down by the number of commits shown after it, which is never negative |
| GitVisualisation.CommitRowsOrdered | src/models/vis/GitVisualisation.js:135-143 | the newest commit is at offset 0 and every older commit sits strictly below every newer one |
| GitVisualisation.Repo.ParentTrees | src/models/vis/GitVisualisation.js:145-203 | the working directory is compared with the staging tree, the staging area with the head commit, the first commit with nothing and every later commit with its predecessor |
| GitVisualisation.Repo.TreeOf | src/models/vis/GitVisualisation.js:145-203 | the working directory's and the staging area's trees always exist; a commit's tree exists exactly for a commit of the history and is its tree |
| GitVisualisation.Repo.ParentTreeOf | src/models/vis/GitVisualisation.js:145-203 | the working directory compares with the staging area, the staging area with the head commit, and a commit with its parent commit's tree, which exists exactly when that parent does |
| GitVisualisation.Repo.StatusIn | src/models/vis/GitVisualisation.js:35-81 | DELETED exactly when the container's tree lacks the file, ADDED exactly when the tree has it and the parent tree does not, UNMODIFIED exactly when both hold the same blob |
| GitVisualisation.Repo.DiffIn | src/models/vis/GitVisualisation.js:83-89 | an ADDED or DELETED visual shows the empty diff; an UNMODIFIED one shows its blob's diff against itself |
| GitVisualisation.Repo.DiffInModified | src/models/vis/GitVisualisation.js:83-89 | a MODIFIED visual shows its blob's diff against the parent tree's blob |
| GitVisualisation.Repo.Files | src/models/vis/GitVisualisation.js:265-277 | every file of the working, staging and head trees, each once, in order |
| GitVisualisation.Repo.NewBlobShowsChange | src/models/vis/GitVisualisation.js:376-377 | a new blob makes the working directory show the file as ADDED or MODIFIED and changes no other file's status anywhere |
| GitVisualisation.Repo.RemovedShowsDeleted | src/models/vis/GitVisualisation.js:363 | removing the file from the working tree makes it show as DELETED there and changes no other file's status |
| GitVisualisation.Repo.StagedIsClean | src/models/vis/GitVisualisation.js:318 | staging makes the working directory show the file as UNMODIFIED (DELETED once removed) and changes no other file's status |
| GitVisualisation.Repo.UnstagedIsClean | src/models/vis/GitVisualisation.js:336 | unstaging makes the staging area show the file as UNMODIFIED (DELETED when the head lacks it) and changes no other file's status |
| GitVisualisation.Repo.CommittedIsClean | src/models/vis/GitVisualisation.js:383 | after a commit the staging area shows nothing as ADDED or MODIFIED, the new commit shows what the staging area showed, and older commits and the working directory are unchanged |
| GitVisualisation.Repo.RevertedIsValid | src/models/vis/GitVisualisation.js:451 | resetting the working tree to a commit's parent keeps the repository valid |
| GitVisualisation.ChangesOf | src/models/vis/GitVisualisation.js:104-112 | the changes of each visual in the container, one per visual |
| GitVisualisation.CarriedFiles | src/models/vis/GitVisualisation.js:397-402 | exactly the files the parent commit does not show as DELETED and no staged visual shows |
| GitVisualisation.CommitGroupsDisjoint | src/models/vis/GitVisualisation.js:389-411 | no visual taken over from the parent shows a file that a staged visual shows |
| GitVisualisation.UnmodifiedFiles | src/models/vis/GitVisualisation.js:439-441 | exactly the files the commit shows as UNMODIFIED |
| GitVisualisation.GitVis.constructor | src/models/vis/GitVisualisation.js:224-239 | an empty repository and empty visual lists |
| GitVisualisation.GitVis.MaxChanges | src/models/vis/GitVisualisation.js:91-112 | no related visual (the commit's own, or the staging area's and working directory's) has more changes, and one has exactly as many |
| GitVisualisation.GitVis.RelatedChanges | src/models/vis/GitVisualisation.js:91-102 | for a visual in a commit, the changes of that commit's visuals; otherwise the changes of the staging area's visuals followed by those of the working directory's, one per visual |
| GitVisualisation.GitVis.AddFile | src/models/vis/GitVisualisation.js:285-294 | a file not shown before gets a new blob and one working-directory visual, and shows as ADDED with an empty diff |
| GitVisualisation.GitVis.AppendVisual | src/models/vis/GitVisualisation.js:314 | the working directory gains one more visual of the file |
| GitVisualisation.GitVis.ClearOrKeepShown | src/models/vis/GitVisualisation.js:302-315 | a deleted file loses all working-directory visuals, and its staged ones when those show it as deleted; a file with one visual gets a second |
| GitVisualisation.GitVis.MoveFirstToStaging | src/models/vis/GitVisualisation.js:317-328 | the first visual moves to the staging area, whose visuals of the file all go when no commit shows it and it is deleted there |
| GitVisualisation.GitVis.StageFile | src/models/vis/GitVisualisation.js:296-331 | the file at the index is staged in the repository, so the working directory shows it as UNMODIFIED (or DELETED); its first visual moves to the staging area; a non-deleted file keeps a visual in the working directory and a deleted one keeps none |
| GitVisualisation.GitVis.UnstageFile | src/models/vis/GitVisualisation.js:333-350 | the staging tree takes the head's entry again; the first staged visual moves back to the working directory and no staged visual of the file remains |
| GitVisualisation.GitVis.DeleteFile | src/models/vis/GitVisualisation.js:352-366 | the file leaves the working tree and shows as DELETED; its working-directory visuals go only when it was ADDED |
| GitVisualisation.GitVis.ModifyFile | src/models/vis/GitVisualisation.js:368-380 | a missing index returns undefined and changes nothing; otherwise the file gets a new blob and shows as ADDED or MODIFIED, every other file as before |
| GitVisualisation.GitVis.AppendCopies | src/models/vis/GitVisualisation.js:404-407 | the loop appends one new visual per taken-over visual to the parent commit |
| GitVisualisation.GitVis.TakeOverFromParent | src/models/vis/GitVisualisation.js:392-411 | the carried visuals leave the parent commit, which gets new visuals for them at its end |
| GitVisualisation.GitVis.CreateCommit | src/models/vis/GitVisualisation.js:382-417 | the staging tree is committed with the head as parent; the new commit shows every staged visual and then the parent's carried visuals, the two groups sharing no file; the staging area is empty and shows nothing as changed |
| GitVisualisation.GitVis.RevertCommit | src/models/vis/GitVisualisation.js:419-454 | an unknown checksum returns undefined and changes nothing; otherwise the working directory shows exactly the commit's changed visuals, the commit gets new ones in their place, and the working tree becomes the parent's tree |
| VersioningInGit.NewFile | src/models/chapters/versioningInGitChapter.js:188 | a new file is ADDED, visible and unmodified |
| VersioningInGit.Reset | src/models/chapters/versioningInGitChapter.js:216 | after `reset()` the file is not modified; its status and visibility stay |
| VersioningInGit.ResetFrom | src/models/chapters/versioningInGitChapter.js:258 | after `reset(src)` the file has src's status and is modified exactly when src is |
| VersioningInGit.WithContentOf | src/models/chapters/versioningInGitChapter.js:212 | `merge(src)` and `revert(src)` give the file src's status and counters |
| VersioningInGit.FirstIndex | src/models/chapters/versioningInGitChapter.js:195 | `findCopies(file)[0]`: the first position of the file's origin, or none exactly when no copy exists |
| VersioningInGit.FirstCopyIsFirst | src/models/chapters/versioningInGitChapter.js:195 | `findCopies(file)[0]` (`FirstCopy`): the position of the first file with that origin, none exactly when no file has it |
| VersioningInGit.IsModified | src/models/chapters/versioningInGitChapter.js:197-201 | a file is modified exactly when taking its counters as the new baseline would change it |
| VersioningInGit.Insert | src/models/chapters/versioningInGitChapter.js:205-210 | adding and re-sorting adds exactly the one file: the result is a permutation of the old list plus it |
| VersioningInGit.InsertSorted | src/models/chapters/versioningInGitChapter.js:207-210 | `sortBy` on the working-directory index keeps the staging list in working-directory order |
| VersioningInGit.SortedIsDistinct | src/models/chapters/versioningInGitChapter.js:205-210 | the staging list holds at most one copy of each file |
| VersioningInGit.RemoveSorted | src/models/chapters/versioningInGitChapter.js:260 | removing a staged file keeps the staging list in working-directory order |
| VersioningInGit.StagePolicy | src/models/chapters/versioningInGitChapter.js:193-222 | "File already staged." exactly when a staged copy exists and the file is unmodified; "Only modified files can be staged." exactly when there is no staged copy, the file is unmodified and neither ADDED nor DELETED; no other error |
| VersioningInGit.StageEffects | src/models/chapters/versioningInGitChapter.js:205-219 | on success the staged copy carries the file's status and counters, a new copy is the one file the list gains and a merge keeps its length; the file is reset or, when DELETED, hidden; no other working file changes; the areas stay valid |
| VersioningInGit.InsertEffects | src/models/chapters/versioningInGitChapter.js:205-210 | a new copy leaves the staging list sorted and is the first copy of its file there |
| VersioningInGit.MergeEffects | src/models/chapters/versioningInGitChapter.js:211-213 | a merge keeps the staging list sorted and the copy in its place |
| VersioningInGit.StagingTwiceFails | src/models/chapters/versioningInGitChapter.js:197-199 | staging a non-deleted file twice with no change in between fails with "File already staged." |
| VersioningInGit.StageAllFrom | src/models/chapters/versioningInGitChapter.js:223-253 | staging every file from an index on keeps the working directory's files and their order |
| VersioningInGit.StageOrSkip | src/models/chapters/versioningInGitChapter.js:226-251 | one step of the batch keeps the working directory's files and their order |
| VersioningInGit.RejectionStays | src/models/chapters/versioningInGitChapter.js:226-251 | a file the policy rejects stays rejected while other files are staged |
| VersioningInGit.StageAllSettles | src/models/chapters/versioningInGitChapter.js:223-253 | afterwards the policy rejects every working file that is not DELETED, so staging any of them again would throw |
| VersioningInGit.StageAllValid | src/models/chapters/versioningInGitChapter.js:223-253 | staging all files keeps the staging list covered and sorted |
| VersioningInGit.UnstageEffects | src/models/chapters/versioningInGitChapter.js:254-263 | the staging list loses exactly that file and stays sorted; the working copy becomes visible with the staged status, modified exactly when the staged copy was; no other working file changes |
| VersioningInGit.Unstaged | src/models/chapters/versioningInGitChapter.js:254-263 | the working list keeps its length and every file of another origin; the staging list loses one entry |
| VersioningInGit.StageThenUnstage | src/models/chapters/versioningInGitChapter.js:254-263 | unstaging a newly staged visible, non-deleted file gives back both areas exactly as they were before staging |
| VersioningInGit.InsertThenRemove | src/models/chapters/versioningInGitChapter.js:205-210 | a file inserted into a list without a copy of it can be taken out again to give the old list |
| VersioningInGit.OverlayOrigins | src/models/chapters/versioningInGitChapter.js:288-302 | the overlay keeps the last commit's files in place; exactly the staged copies of files the commit lacks stay in the staging list |
| VersioningInGit.OverlayFile | src/models/chapters/versioningInGitChapter.js:289-301 | a commit file keeps its origin and is hidden exactly when it was hidden or DELETED; with a staged copy it takes that copy's status and modified state and the copy leaves the staging list; without one it keeps its status, is no longer modified and the staging list stays |
| VersioningInGit.Overlay | src/models/chapters/versioningInGitChapter.js:288-302 | the overlaid commit has one file per file of the last commit, and the staging list never grows |
| VersioningInGit.CommittedFiles | src/models/chapters/versioningInGitChapter.js:279-315 | the first commit holds the staged files; a later one holds at least the last commit's files and at most those plus the staged files |
| VersioningInGit.RemovedCopy | src/models/chapters/versioningInGitChapter.js:298 | removing the matched staged file leaves every other file once and none of it |
| VersioningInGit.CommittedFilesEffects | src/models/chapters/versioningInGitChapter.js:279-315 | the new commit holds exactly the files of the last commit and the staged files, each once |
| VersioningInGit.Reverted | src/models/chapters/versioningInGitChapter.js:325-326 | the reverted copy has the commit file's status and counters and is visible exactly when not DELETED |
| VersioningInGit.RevertFiles | src/models/chapters/versioningInGitChapter.js:322-327 | reverting to one commit keeps the working directory's files and their order |
| VersioningInGit.RevertStep | src/models/chapters/versioningInGitChapter.js:323-326 | reverting one file keeps the working directory's files and their order |
| VersioningInGit.RevertChain | src/models/chapters/versioningInGitChapter.js:319-334 | the walk from the head to the target keeps the working directory's files and their order |
| VersioningInGit.RevertFilesVisibility | src/models/chapters/versioningInGitChapter.js:322-327 | every working file reverting one commit changes is visible exactly when not DELETED |
| VersioningInGit.RevertChainVisibility | src/models/chapters/versioningInGitChapter.js:319-334 | every working file the whole walk changes is visible exactly when not DELETED |
| VersioningInGit.RevertFilesRestores | src/models/chapters/versioningInGitChapter.js:322-327 | each working file with a copy in the commit ends with that copy's status and counters |
| VersioningInGit.VersioningInGit.constructor | src/models/chapters/versioningInGitChapter.js:80-88 | three new files, an empty staging list, no commits and no head |
| VersioningInGit.VersioningInGit.AddFile | src/models/chapters/versioningInGitChapter.js:187-192 | a new file of a new origin joins the end of the working directory; nothing else changes |
| VersioningInGit.VersioningInGit.StageFile | src/models/chapters/versioningInGitChapter.js:193-222 | fails exactly as the policy rejects, with its message and nothing changed; on success the areas are the policy's and the result is the staged copy |
| VersioningInGit.VersioningInGit.AddToStaging | src/models/chapters/versioningInGitChapter.js:205-213 | a new copy is inserted in order, or the existing copy is merged |
| VersioningInGit.VersioningInGit.StageAllFiles | src/models/chapters/versioningInGitChapter.js:223-253 | the `forEach` computes StageAllFrom from index 0, never throws and keeps the history |
| VersioningInGit.VersioningInGit.StageOrSkipFile | src/models/chapters/versioningInGitChapter.js:226-252 | one file is staged, or skipped when the policy rejects it |
| VersioningInGit.VersioningInGit.UnstageFile | src/models/chapters/versioningInGitChapter.js:254-263 | the areas become `Unstaged` of the old ones and the result is the working copy |
| VersioningInGit.VersioningInGit.DeleteFile | src/models/chapters/versioningInGitChapter.js:264-270 | only the status of the chosen file changes, to DELETED |
| VersioningInGit.VersioningInGit.ModifyFile | src/models/chapters/versioningInGitChapter.js:271-278 | the payload is added to the chosen file's counters and nothing else changes |
| VersioningInGit.VersioningInGit.OverlayStaged | src/models/chapters/versioningInGitChapter.js:288-302 | the `forEach` over the copied commit computes the overlay |
| VersioningInGit.VersioningInGit.OverlayOne | src/models/chapters/versioningInGitChapter.js:289-301 | a file is hidden when DELETED, then reset from its staged copy, which leaves the staging list, or reset |
| VersioningInGit.VersioningInGit.CreateCommit | src/models/chapters/versioningInGitChapter.js:279-315 | the new commit, holding `CommittedFiles` with the last commit as parent, is appended and becomes the head; the staging list is empty; the working directory stays |
| VersioningInGit.VersioningInGit.RevertCommit | src/models/chapters/versioningInGitChapter.js:316-337 | the walk from the head down to the target reverts the working files; history, head and staging stay; every changed file is visible exactly when not DELETED; every file of the target ends with the target's content |
| VersioningInGit.VersioningInGit.RevertEach | src/models/chapters/versioningInGitChapter.js:322-327 | the `forEach` over a commit's files computes RevertFiles |
| VersioningInGit.VersioningInGit.RevertOne | src/models/chapters/versioningInGitChapter.js:323-326 | the first working copy of the file is reverted to it |

## Left out

- React components, tooltip and section texts, the console command tree and the layout sizes set up in `init` and the constructors are presentation only.
- The popmotion animation sequencing of the team chapter is asynchronous UI and is not modelled.
- MobX reactivity is not modelled. Computed getters are functions evaluated on demand, and the `reaction` that calls `handleFiles` becomes a method the caller invokes.
- Randomness is not modelled: the deltas of `chance.diff()` and the payload of `createModifications()` are method parameters.
- The Raven breadcrumb and the `console.log`/`console.error` calls are side channels and are left out.
- The toggles and `getVersions` of the git visualisation only show or hide areas, and are not modelled.
- `Repository` and `File`, which the git visualisation drives, are not part of this model. Their effect on the trees is given git's meaning. Staging copies the working entry (the same blob) into the staging tree, or drops it. Unstaging restores the head's entry. A commit freezes the staging tree with the head as parent. Revert resets the working tree to the given commit's tree; reverting the first commit, which has no parent, empties the working tree, as the commented-out first-commit branch of `revertCommit` (GitVisualisation.js:427-432) does to the working-directory list. Adding and modifying a file give it a fresh blob id. The blob's own `diff` is a parameter.
- GitVisualisation.Repo.Files: sorted by file identity (creation order) instead of by file name, since file names belong to the unmodelled `File`.
- The visual list classes are not part of this model. Their `add` and `set` are taken to move an object out of its previous list, as the comments of the git visualisation say. A visual's identity is an id field, and a `new FileVisualisation(...)` takes the next id. Its `prevPosition` is not kept.
- `VisualisationFile`'s `copy`, `merge`, `reset`, `revert`, `modified` and `findCopies` are not part of this model. They are given the smallest meanings their uses need. `modified` means the counters differ from the baseline that the last `reset` recorded. `findCopies` matches copies by the origin file they were copied from.
- VersioningInGit.NewFile: a new file's status is taken to be ADDED with zero counters, since the constructor of `VisualisationFile` is not part of this model.
- `sortBy` is modelled as inserting the new copy after every staged file whose working-directory index is not larger. Since the list was sorted and holds one copy per file, this is the stable sort's result.
- `vis.at(...)` payloads are modelled as indexes into the working-directory or staging list, and a commit is identified by its index in the history.
- `revertCommit` of the chapter would throw if a commit held a file with no working-directory copy. The class invariant rules this out: every commit holds copies of working-directory files, each once.
- Chapter.Chapter.Dispatch: the `console` logging and the Raven breadcrumb are left out; thrown values are modelled as messages rather than objects.
- Chapter.Chapter.Dispatch: the sections are derived from chapter state the handler changes; the model takes the sections after a returning handler as the parameter `sectionsAfter`, and a handler that throws is taken to leave them unchanged, as every handler of the modelled chapters throws before it changes anything.
- Chapter.Quotient: JavaScript's `done / doable` is a double; the model takes the exact rational quotient, so rounding (1/3, say) is not modelled. `progress >= 1` is the same for counts below 2^53.
- GitVisualisation.GitVis.StageFile, GitVisualisation.GitVis.UnstageFile, GitVisualisation.GitVis.DeleteFile: the source uses `visFiles[0]` or `stagedVisFiles[0]` without a guard: reading `.status` of it throws a TypeError (GitVisualisation.js:303, 359) and `add` receives undefined (:342) when the file has no visual in that list. That happens, for example, when a committed file is deleted and staged and then staged or deleted again. These methods require such a visual, so the model excludes those calls rather than modelling the failure.
- VersionDatabase.VersionDatabaseVisualisation.ModifyFile, VersionDatabase.VersionDatabaseVisualisation.CopyFile, VersionDatabase.VersionDatabaseVisualisation.DeleteFile, VersionDatabase.VersionDatabaseVisualisation.RestoreFile: `files[fileIndex]` is undefined for an index past the end and the source then throws a TypeError (VersionDatabaseVisualisation.js:142, 150, 165, 175); these methods require a valid index, so the model excludes those calls.
- The version database's `handleVersionDatabase` only adds or removes the database area from the visualisation and is not modelled.

# GitBusyLivin main window: selection, path keys and recent repositories

A Dafny model of the sequential logic inside the main window of the
GitBusyLivin Git client (`src/ui/mainwindow.cpp`), with proofs of what that
logic guarantees:

- **Path keys** (`PathKeys`). A file item's `(sub_dir, file_name)` pair becomes
  the string handed to stage, unstage and diff calls. The unstaged and staged
  lists write `sub_dir/file_name`, or only `file_name` at the root `"."`, and
  `sub_dir/*` for a whole-directory entry. The commit file list writes the same
  thing but never adds the wildcard. Both keys are proved to be lossless for
  file names without '/': a parser reads them back. For the staging key this
  also needs the name not to be "*" outside the root. So two different items
  whose names contain no '/' and are not "*" outside the root never share a
  key. A directory entry and a file literally named "*" in the same directory
  do share one (`WildcardCollides`).
- **Row collection** (`RowSelection`). The selection handlers walk the selected
  indexes, skip rows already recorded in a `rowMap`, and collect one key per
  distinct row, in the order each row first occurs. A diff is attributed to
  one file item only when exactly one index was selected.
- **Selection coordination** (`SelectionCoordinator`). The window is an
  immutable record. It holds the selected code (`""`, `"history"`,
  `"unstaged"`, `"staged"`), the three lists with their selections, and the
  diff view. Each handler returns the next record and the repository request
  it issued. A non-empty selection in one list takes over the code and clears
  the other two selections. As a result, across any run of events, no two
  lists ever have a selection at the same time. The four stage/unstage actions
  and the status refresh are modelled too.
- **Recent repositories** (`RecentRepos`). Promoting a path removes every copy
  of it, puts it at the front, and writes the list back only when that changed
  it. The list is never truncated. The "Recent" menu shows the first
  `min(MaxRecentRepos, size)` entries and hides the rest.
- **Appearance** (`Appearance`). Maps a theme name to its style-sheet path and
  the stored toolbar code to a tool-button style.

Repository calls (`GBL_Repository`) are not modelled as code. Their answers
are parameters instead: the success flag, the diff lines emitted in order, a
fresh status scan, and a commit's file list. The file read in `setTheme` is
the parameter `readFile`.

Where the code does less than a reader might expect, the model follows
the code:

- the stored recent list is not bounded, only the menu is;
- `cleaningRepo` leaves the selected code as it was;
- nothing discards late diff results (everything is synchronous);
- after a promote, the "Recent" menu is always visible.

Some behaviour belongs to files outside this model (the file and dock views,
and Qt). The model assumes the following about it:

- `getFileItemAt` and `getHistoryItemAt` return null for a row past the end;
- replacing a list's contents empties that view's selection without a
  notification;
- `clearSelection()` on a non-empty selection calls that view's handler at
  once with nothing selected. The unstaged and staged handlers then reset the
  diff view; the commit-file handler does nothing. `ClearSelection` models
  this, and `ClearSelectionIsHandler` proves it matches running the handler.

## Model

| member | source | states |
|---|---|---|
| `PathKeys.StageKey` | src/ui/mainwindow.cpp:388-395 | At the root `"."` the key is exactly the file name. Elsewhere it is `sub_dir + "/" + "*"` for an empty file name and `sub_dir + "/" + file_name` otherwise. The same block is repeated at 447-454, 479-486, 515-522, 549-556 and 585-592. |
| `PathKeys.HistoryPath` | src/ui/mainwindow.cpp:323-328 | At the root the path is the file name. Elsewhere it is `sub_dir + "/" + file_name` and never has a wildcard added. |
| `PathKeys.StageKeyRoundTrip` | src/ui/mainwindow.cpp:388-395 | Parsing a staging key gives back the item, for every item whose name has no '/' and is not itself "*" outside the root. |
| `PathKeys.StageKeyInjective` | src/ui/mainwindow.cpp:479-491 | Two different such items never get the same key, so a stage or unstage call names exactly the chosen files. |
| `PathKeys.WildcardCollides` | src/ui/mainwindow.cpp:392 | A directory entry (empty name) and a file literally named "*" in the same directory share a key. This is why the round trip excludes that name. |
| `PathKeys.HistoryPathRoundTrip` | src/ui/mainwindow.cpp:323-328 | Parsing a commit-file path gives back the item whenever the file name has no '/'. |
| `PathKeys.StageKeyVersusHistoryPath` | src/ui/mainwindow.cpp:323-328 | The two spellings are equal exactly when the item is at the root or has a file name. Otherwise the staging key is the commit-file path plus "*". |
| `RowSelection.Distinct` | src/ui/mainwindow.cpp:379-386 | The rows the loop keeps: never more than were selected, and every kept row lies in any range that holds all the selected rows. |
| `RowSelection.DistinctElements` | src/ui/mainwindow.cpp:379-386 | The kept rows are exactly the selected rows as a set, and none is kept twice. |
| `RowSelection.DistinctSnoc` | src/ui/mainwindow.cpp:382-386 | One more selected row is skipped exactly when it already occurred, and is otherwise kept at the end. |
| `RowSelection.DistinctKeepsFirstOccurrenceOrder` | src/ui/mainwindow.cpp:379-386 | The kept rows are ordered by first occurrence: each kept row first appears in the selection before every later kept row. |
| `RowSelection.AllRows` | src/ui/mainwindow.cpp:475-478 | The all-rows walk of stageAll/unstageAll visits every index once, top to bottom. |
| `RowSelection.LastVisited` | src/ui/mainwindow.cpp:379-387 | The item the loop fetched last is the item of the last row not seen before; there is none exactly when nothing was selected. |
| `RowSelection.LastVisitedSnoc` | src/ui/mainwindow.cpp:383-387 | One more selected row changes the item fetched last exactly when that row was not seen before, and then it becomes that row's item. |
| `RowSelection.DiffOrigin` | src/ui/mainwindow.cpp:402-406 | With exactly one selected index the diff is attributed to the item at that row. With any other count, repeated indexes of one row included, no item is attributed. |
| `RowSelection.KeysAtRoundTrip` | src/ui/mainwindow.cpp:387-397 | The path list `files` built by the loop holds one key per row, and each key reads back as that row's item when the items are plain. |
| `RowSelection.SelectedKeysNoRepeats` | src/ui/mainwindow.cpp:379-398 | The diff request built from a selection names each file once, when the list holds distinct plain items. |
| `RowSelection.CollectSeenRow` | src/ui/mainwindow.cpp:383-384 | A row already in `rowMap` adds no key, and the loop's state still describes the rows walked so far. |
| `RowSelection.CollectNewRow` | src/ui/mainwindow.cpp:386-397 | A new row is recorded in `rowMap`, kept at the end, its staging key appended, and its item becomes the one fetched last. |
| `RowSelection.CollectSelectedPaths` | src/ui/mainwindow.cpp:379-398 | The `rowMap` loop yields exactly the keys of the distinct rows, in first-occurrence order. The item it fetched last is the last distinct row's item. |
| `SelectionCoordinator.ClearSelection` | src/ui/mainwindow.cpp:364-370 | Clearing a list's selection empties it and leaves the other selections, the code and the lists alone. It resets the diff view exactly when a non-empty unstaged or staged selection was cleared. |
| `SelectionCoordinator.ClearSelectionIsHandler` | src/ui/mainwindow.cpp:344-356 | Clearing a selection has the same effect as that list's handler run with nothing selected. |
| `SelectionCoordinator.HistorySelectionChanged` | src/ui/mainwindow.cpp:259-295 | Picking a commit installs it with its commit-to-parent file list (empty if that call fails) and empties the file-list selection. It leaves the code, the commit list, both status lists and their selections alone. It resets the diff view only when the code is "history". A row past the list changes nothing. |
| `SelectionCoordinator.HistoryFileSelectionChanged` | src/ui/mainwindow.cpp:297-342 | A non-empty selection sets the code to "history" and clears the unstaged and staged selections. For an existing first row it requests that file's commit-to-parent diff. The diff view then holds exactly that request's lines, attributed to the file when the call succeeds and to no file when it fails. An empty selection changes nothing. |
| `SelectionCoordinator.FileListSelectionChanged` | src/ui/mainwindow.cpp:344-408 | The diff view is always reset first. A non-empty selection takes the code, clears the other two selections, requests the diff of the distinct selected rows' keys, and leaves only that request's lines in the diff view. An empty selection changes nothing else. |
| `SelectionCoordinator.WorkingFileSelectionChanged` | src/ui/mainwindow.cpp:344-408 | For the unstaged list: the code becomes "unstaged", history and staged selections are emptied, and an index-to-work diff is requested for one key per distinct row. The diff view is marked rendered exactly when that call succeeds. The diff is attributed to the single selected item, and to none when the call fails or more than one index was selected. The commit, its file list and both status lists are kept; an empty selection only resets the diff view. |
| `SelectionCoordinator.StagedFileSelectionChanged` | src/ui/mainwindow.cpp:410-466 | The same for the staged list: the code becomes "staged", history and unstaged selections are emptied, and an index-to-HEAD diff is requested. Rendering, attribution and the kept lists are as for the unstaged list. |
| `SelectionCoordinator.UpdateStatus` | src/ui/mainwindow.cpp:234-249 | A successful scan replaces both status lists together, from the same scan, and empties both status selections; nothing else changes. A failed scan changes nothing. |
| `SelectionCoordinator.StageAll` | src/ui/mainwindow.cpp:468-499 | Adds the key of every unstaged item, in list order, to the index. Success refreshes the status; failure leaves the window as it was. |
| `SelectionCoordinator.StageSelected` | src/ui/mainwindow.cpp:501-535 | Adds the keys of the selected unstaged rows, in selection order and with repeats kept. Success refreshes the status; failure changes nothing. |
| `SelectionCoordinator.UnstageAll` | src/ui/mainwindow.cpp:538-569 | Unstages the key of every staged item, in list order. Success refreshes the status; failure changes nothing. |
| `SelectionCoordinator.UnstageSelected` | src/ui/mainwindow.cpp:571-605 | Unstages the keys of the selected staged rows, in selection order and with repeats kept. Success refreshes the status; failure changes nothing. |
| `SelectionCoordinator.LoadHistory` | src/ui/mainwindow.cpp:204-226 | A non-empty history from the repository becomes the commit list; an empty or missing one leaves it as it was. Nothing else in the window changes. |
| `SelectionCoordinator.PickAfterLoad` | src/ui/mainwindow.cpp:223-226 | From the freshly built window, loading a history and then picking its i-th commit shows that commit with its file list. |
| `SelectionCoordinator.CleaningRepo` | src/ui/mainwindow.cpp:727-754 | Empties the commit list, the commit's file list and its selection, and the diff view. The selected code, the status lists and their selections are kept. |
| `SelectionCoordinator.Apply` | src/ui/mainwindow.cpp:839-896 | Every event the connected handlers receive keeps each selected unstaged or staged row inside its list. A non-empty commit file list always has its commit. |
| `SelectionCoordinator.SelectKeepsCoherent` | src/ui/mainwindow.cpp:297-310 | A selection event on any of the three lists leaves a selection only in the list the code names. This includes a commit-file selection that only loses rows, for which the handler does nothing. |
| `SelectionCoordinator.OtherEventKeepsCoherent` | src/ui/mainwindow.cpp:727-754 | Refreshes, stage and unstage actions, loading a history and repository cleaning never break the match between the code and the selected list. |
| `SelectionCoordinator.ApplyKeepsCoherent` | src/ui/mainwindow.cpp:364-370 | After any event, a list with a selection is the list the code names, so at most one list is selected. |
| `SelectionCoordinator.SelectingIsExclusive` | src/ui/mainwindow.cpp:304-310 | After a selection that adds rows to any of the three lists, the code names that list, that list keeps its selection, and the other two selections are empty. |
| `SelectionCoordinator.Run` | src/ui/mainwindow.cpp:380-387 | Over any sequence of events the views can produce, the rows later fetched with `at(row)` stay inside their lists. |
| `SelectionCoordinator.RunKeepsCoherent` | src/ui/mainwindow.cpp:422-428 | Across any such sequence that starts coherent, no two lists ever have a selection at the same time. |
| `SelectionCoordinator.InitialIsCoherent` | src/ui/mainwindow.cpp:34-47 | The freshly built window selects nothing and its code is the empty string. |
| `RecentRepos.ReadAfterWrite` | src/ui/mainwindow.cpp:1034-1055 | Reading the recent array after writing a list gives that list back. |
| `RecentRepos.ReadRecentRepos` | src/ui/mainwindow.cpp:1034-1044 | Reading gives exactly as many paths as the array's recorded size. |
| `RecentRepos.ReadIgnoresStale` | src/ui/mainwindow.cpp:1034-1044 | Entries past the recorded size never show: two arrays that agree on their first `size` entries read the same. |
| `RecentRepos.WriteRecentRepos` | src/ui/mainwindow.cpp:1046-1055 | The recorded size becomes the list's length; entries past it, left from a longer list, stay in the store. |
| `RecentRepos.HasRecentRepos` | src/ui/mainwindow.cpp:1057-1063 | True exactly when reading the array gives a non-empty list. |
| `RecentRepos.RemoveAll` | src/ui/mainwindow.cpp:1071 | The result has no copy of the path and keeps every other path the same number of times. |
| `RecentRepos.RemoveAllAppend` | src/ui/mainwindow.cpp:1071 | Removal works part by part: the kept paths of a concatenation are the kept paths of each part, in order. |
| `RecentRepos.RemoveAllAbsent` | src/ui/mainwindow.cpp:1071 | Removing a path that is not listed leaves the list unchanged. |
| `RecentRepos.Promote` | src/ui/mainwindow.cpp:1069-1072 | The promoted list starts with the path and has it exactly once. Every other path keeps its number of copies. The length is the old length minus the removed copies plus one, so it is not bounded. |
| `RecentRepos.PromoteKeepsOrder` | src/ui/mainwindow.cpp:1071-1072 | After the path come the old entries without it, in their original relative order. |
| `RecentRepos.PromoteNewPathGrows` | src/ui/mainwindow.cpp:1069-1072 | A new path is put in front of the whole old list, which makes the list one longer. Nothing is truncated. |
| `RecentRepos.PromoteIdempotent` | src/ui/mainwindow.cpp:1069-1072 | Promoting the same path twice gives the same list as promoting it once. |
| `RecentRepos.PromoteUnchangedIff` | src/ui/mainwindow.cpp:1069-1073 | Promoting leaves the list unchanged exactly when the path is already at the front and has no other copy. |
| `RecentRepos.PrependToRecentRepos` | src/ui/mainwindow.cpp:1065-1077 | The stored list becomes the promoted list. The array is rewritten exactly when the path was not already the only copy at the front; otherwise the settings are untouched. The "Recent" menu is visible afterwards. |
| `RecentRepos.PrependTwiceWritesOnce` | src/ui/mainwindow.cpp:1073-1074 | Opening the same repository twice in a row never rewrites the list the second time. |
| `RecentRepos.Decimal` | src/ui/mainwindow.cpp:1094 | The number in the label is written as a non-empty string of decimal digits. |
| `RecentRepos.DecimalRoundTrip` | src/ui/mainwindow.cpp:1094 | Reading those digits back gives the number, so action i shows the number i+1. |
| `RecentRepos.BaseNameIsLastSegment` | src/ui/mainwindow.cpp:1093 | The file name is the longest suffix of the path without '/': the whole path when it has no '/', otherwise what follows its last '/'. |
| `RecentRepos.LabelShape` | src/ui/mainwindow.cpp:1094 | For the menu's single-digit positions the label is '&', the digit i+1, a space, and the path's file name. |
| `RecentRepos.UpdateRecentRepoActions` | src/ui/mainwindow.cpp:1085-1100 | Exactly the first min(MaxRecentRepos, size) actions are visible. Action i shows `list[i]` with label number i+1 and the path's file name. Every later action is hidden and otherwise unchanged. |
| `Appearance.ThemeSheetPath` | src/ui/mainwindow.cpp:1109-1126 | No sheet path for "none", and only for "none". The two bundled themes use their resource paths. Any other theme is `<themes path><separator><theme>.qss`. |
| `Appearance.CustomThemePathInjective` | src/ui/mainwindow.cpp:1119-1125 | Two different custom themes never load the same sheet file. |
| `Appearance.CustomThemeIsNotBundled` | src/ui/mainwindow.cpp:1108-1125 | A custom theme never loads a bundled sheet, as long as the themes directory does not start with ':'. |
| `Appearance.SetTheme` | src/ui/mainwindow.cpp:1102-1138 | The theme name is remembered. The style sheet is empty for "none" and otherwise the contents of the file at the theme's sheet path. |
| `Appearance.SetThemeReadsOnlyTheSheet` | src/ui/mainwindow.cpp:1128-1136 | The outcome depends on no file other than the theme's sheet: two readers that agree on that path give the same state. |
| `Appearance.ToolbarStyle` | src/ui/mainwindow.cpp:651-659 | Code 1 gives text beside icon, and every other code gives icon only. The same mapping is used at start-up (956-964). |
| `Appearance.StartupToolbarStyle` | src/ui/mainwindow.cpp:954-966 | At start-up the stored value 1 gives text beside icon; any other value, or nothing stored, gives icon only. |
| `Appearance.StartupTheme` | src/ui/mainwindow.cpp:950-952 | At start-up the stored "UI/Theme" is applied, and "none" when nothing is stored. |
| `Appearance.AcceptPreferences` | src/ui/mainwindow.cpp:643-661 | Accepting the preferences stores the current theme and the chosen toolbar code, and switches the toolbar to text beside icon exactly for code 1. |
| `Appearance.PreferencesMatchStartup` | src/ui/mainwindow.cpp:643-661 | Whatever was stored before, the start-up after accepting the preferences shows the same theme and the same toolbar style as the dialog left. The two switch statements (651-659 and 956-964) are one function here, so the style half holds by their agreement. |

## Left out

- Window, menu, toolbar, dock and splitter construction (`createActions`,
  `createDocks`, `createHistoryTable`), window geometry and state in
  `readSettings`/`writeSettings`, and the network cache and SVG icons: UI
  plumbing and foreign I/O with no logic to state.
- `open`, `openRecentRepo`, `clone`, `new_local_repo`, `new_network_repo`,
  `setupRepoUI` and `commit`: these mostly sequence repository calls whose
  code is not part of this model. What they do to the window is modelled:
  the recent list by `PrependToRecentRepos`, the history install by
  `LoadHistory` (the `HistoryLoaded` event) and the status rescan by
  `UpdateStatus`. Branch names, remotes and references are display only.
- The update timer (`startTimer`, `killTimer`): event-loop plumbing.
  `timerEvent` and `refresh` both rescan the status, modelled as the
  `Refreshed` event.
- `preferences`: the global-config read (mainwindow.cpp:636-639) and the
  write-back when the map changed (665-672) are repository calls and are not
  modelled, and neither is the cancel path that re-applies the previous theme
  (676). Accepting stores the theme and the toolbar code and sets the style
  (`AcceptPreferences`).
- `addToDiffView` and the diff view's rendering: the emitted lines land in
  the diff view in emission order (`DiffReply.lines`). How they are drawn is
  not modelled.
- Commit details, avatars and the references panel: display only.
- `SelectionCoordinator.HistorySelectionChanged`: the commit list's own
  selection is not tracked. Only its first selected row is used, as in the
  source.
- `RecentRepos.MaxRecentRepos` is 5. It is declared in `mainwindow.h`, which
  is not part of this model.
- `RecentRepos.UpdateRecentRepoActions`: the label's file name takes the part
  after the last '/', which stands for `QFileInfo::fileName`. Translation of
  the label format by `tr` is not modelled.
- `SelectionCoordinator.LoadHistory`: the history model's `setModelData`
  belongs to code not shown. The model takes it to replace the commit list
  only, leaving the commit details and the commit's file list as they were,
  since this function does not touch them.
- File item status flags and diff line numbers: this code never reads them.
- History item fields other than the object id: the author e-mail only looks
  up the avatar shown in the commit details (mainwindow.cpp:276), which is
  display.

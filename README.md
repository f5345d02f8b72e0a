# Farnsworth background catalog, selectors and home screen, in Dafny

Farnsworth is an Electron kiosk launcher. Its home screen shows rows of tiles grouped in
categories over a rotating background photo. This project models the logic at its core and
proves properties of that model.

- **Backend catalog** (`Downloads`, `CatalogMerge`). The main process loads the saved
  background catalog and scans it for a usable image. It merges the catalog with the remote
  manifest, keyed by URL. It then downloads the missing images one index at a time, and the
  cleanup marks the files that no entry names.
- **Background selectors.** The renderer's `getRandomBackground` comes in two revisions, the
  older one (`LegacySelector`) and the newer one (`Selector`). Both probe random catalog
  indices for a readable image. `FixedSelector` is the selection both evidently intend.
- **Home screen** (`Home`).
  - `makeCategoryList` orders the categories.
  - The tile-mode arrow keys move the cursor and, in move mode, carry a tile along.
  - Category mode rearranges the categories by trading their `order` values.
  - `deleteTile` removes a tile and skips the rows left empty.
- **Supporting pieces.**
  - `EditTile`: the tile editor's route-driven tile choice, `save`, `addCategory` and the
    `filterTransient` filter.
  - `HotkeyDialogs`: the dialog builder and its button cursor.
  - `ErrorMessage`: the error service's choice of message.

Shared modules:

- `Backgrounds`: catalog entries and the `Background` object handed to the UI.
- `Tiles`: tiles and categories, with the array operations both screens use.
- `Paths`: Node's `path.basename`, `path.extname` and `path.join`, for POSIX paths that do not
  end in '/'.
- `JsValues`: JavaScript values with `typeof` and truthiness.
- `Wrappers`: `Option`.

The file system, the network and randomness are parameters.

- Readable files are a set of joined paths, and a directory listing is a sequence of names.
- Each URL's download success, and each index's save success, is a function in
  `Downloads.Env`.
- `sha1` is an uninterpreted function.
- Each `Math.floor(Math.random() * (len - 1))` draw is an integer that the caller supplies,
  restricted to the exact range the formula yields (`Backgrounds.InDrawRange`). That range is
  [0, len-2], only 0 when len is 1, and -1 or -0 for an empty list.
- A promise that never settles is an outcome of its own. `Hangs` is a loop that no further
  draw can end, and `Faulted` is a callback that throws. `Drawing` is a selection still
  redrawing when the supplied draws ran out while a further draw could still end it.

Where the code and its comments disagree, the model follows the code.

- `doDownload` as written stops at the first failed download or save. Its handlers call
  `send` on the undeclared `bgWindow`, which throws before the recursive call.
- The newer selector's redraw loop does not terminate, despite the bounded-check comment.

The evidently intended behaviour is modelled beside the code as written, and each such case
has a row under "## Findings".

## Model

| member | source | states |
|---|---|---|
| Paths.BasenameSpec | backend/backgrounds.js:32 | `path.basename` has no '/' and is a suffix of the path |
| Paths.ExtnameSpec | backend/backgrounds.js:63 | `path.extname` is empty or a '.'-led suffix with no other '.' or '/' |
| Paths.Join | backend/backgrounds.js:64 | `path.join(dir, name)` is `dir`, then '/', then `name` |
| Paths.BasenameOfJoin | backend/backgrounds.js:31-33 | a plain file name is its own basename and the basename of its joined path |
| Backgrounds.ContentNameShape | backend/backgrounds.js:63 | the content name is the hash followed by the URL's extension, and has no '/' when the hash has none |
| Backgrounds.DrawIsIndex | ui/scripts/services/backgrounds.js:94 | a draw for a non-empty catalog is an index, and never the last index once there are two entries |
| Backgrounds.Background.constructor | ui/scripts/services/backgrounds.js:114-117 | the handed-out object carries the joined path and the entry |
| CatalogMerge.KeepListed | backend/backgrounds.js:172-176 | the kept entries are the listed entries whose URL the remote list names, and every such entry is kept |
| CatalogMerge.MergeRemote | backend/backgrounds.js:161-181 | the in-place push-then-remove loops yield the merged catalog; a null saved list yields the remote list |
| CatalogMerge.AppendMissingExtends | backend/backgrounds.js:163-169 | step one keeps the saved list as a prefix and appends only remote entries with a URL the saved list lacks |
| CatalogMerge.AppendMissingUrls | backend/backgrounds.js:163-169 | after step one a URL is present iff the saved list or the remote list has it |
| CatalogMerge.AppendMissingUnique | backend/backgrounds.js:163-169 | step one never adds a second entry for a URL, even when the remote list repeats it |
| CatalogMerge.KeepListedConcat | backend/backgrounds.js:172-176 | step two distributes over concatenation, so survivors keep their relative order |
| CatalogMerge.KeepListedAll | backend/backgrounds.js:172-176 | entries whose URLs are all remote survive step two unchanged |
| CatalogMerge.KeepListedUnique | backend/backgrounds.js:172-176 | step two keeps URLs unique |
| CatalogMerge.MergeSplit | backend/backgrounds.js:161-181 | the merge is the surviving saved entries followed by the appended remote entries |
| CatalogMerge.MergeNamesRemoteUrls | backend/backgrounds.js:161-181 | the merged catalog names exactly the remote URLs |
| CatalogMerge.MergeContract | backend/backgrounds.js:161-181 | exact remote URLs; surviving saved entries first, unchanged and in order; the rest are remote entries new to the saved list; uniqueness kept |
| CatalogMerge.MergeNamesEachRemoteUrlOnce | backend/backgrounds.js:163-176 | from a saved list with unique URLs, each remote URL occurs exactly once in the merge |
| Downloads.ContentEnv | backend/backgrounds.js:63 | the code's naming gives each URL the file `sha1(url) + extname(url)`, which is a plain file name (no '/') whenever the hash never yields a '/' |
| Downloads.VisitAt | backend/backgrounds.js:52-96 | one index touches only its own entry; with error reporting intended, the walk always goes on |
| Downloads.SuccessNotices | backend/backgrounds.js:71-80 | a successful download announces its index iff `bgAvailable` is false |
| Downloads.Visit1 | backend/backgrounds.js:53-96 | the in-place update of one array slot and its notices agree with `VisitAt` |
| Downloads.DoDownload | backend/backgrounds.js:50-104 | the array walk ends in exactly the state, notices and finish flag of `WalkFrom` |
| Downloads.WalkEntriesFrom | backend/backgrounds.js:52-101 | the intended walk finishes, leaves indices before `index` alone and visits each later index exactly once |
| Downloads.DownloadWalkContract | backend/backgrounds.js:50-104 | the walk from 0 finishes and keeps URLs and metadata; downloaded entries are unchanged; others get their content name; downloaded iff already downloaded or fetched |
| Downloads.WalkKeepsDownloadedNamed | backend/backgrounds.js:63-71 | every downloaded entry has a file name before and after the walk |
| Downloads.VisitAnnounces | backend/backgrounds.js:73-78 | a visit announces its index iff the entry was not downloaded, its fetch succeeds and `bgAvailable` is false |
| Downloads.WalkAnnouncements | backend/backgrounds.js:54-95 | index k is announced iff its download runs and succeeds and either k is past the first index or the caller's `bgAvailable` was false |
| Downloads.AsWrittenStopsAtFailure | backend/backgrounds.js:85-96 | as written, the walk stops at the first failed download or save: it never finishes and no later entry is touched |
| Downloads.FailureStopsWalkExample | backend/backgrounds.js:87-95 | a two-entry catalog whose first download fails: as written the second entry is never downloaded; as intended it is |
| Downloads.SwappedResolvesParity | backend/backgrounds.js:51-101 | with the executor's `(reject, resolve)` swap, a completed walk resolves iff the number of entries walked is odd |
| Downloads.FirstPresent | backend/backgrounds.js:126-137 | the startup scan returns the first downloaded, named, readable index, or -1 iff there is none |
| Downloads.LoadSaved | backend/backgrounds.js:110-147 | no saved file sends nothing; otherwise the data notice, plus an availability notice iff some entry is present |
| Downloads.Listed | backend/backgrounds.js:31-33 | a file is listed iff some entry's filename equals its basename |
| Downloads.Orphans | backend/backgrounds.js:28-36 | the files deleted are exactly those not listed |
| Downloads.CleanupSparesCatalogFiles | backend/backgrounds.js:22-40 | after the walk, the file named for an entry is never deleted, by plain name or under the directory |
| Downloads.ContentNamedFilesSurvive | backend/backgrounds.js:22-71 | with the code's content naming and a '/'-free hash, a walked entry is named `sha1(url) + extname(url)`, is downloaded iff its fetch succeeds, and that file is never deleted by the cleanup |
| Downloads.LoadAndDownload | backend/backgrounds.js:110-212 | a failed fetch keeps the saved catalog and reports; a mkdir failure reports after the data notice; otherwise it merges, walks from 0 with the scan's availability, reports completion and deletes the orphans |
| LegacySelector.ProbeFrom | ui/scripts/services/backgrounds.js:104-122 | an accepted index is a downloaded, named, readable catalog entry, drawn at one of the remaining probes |
| LegacySelector.BackgroundService.OnDataAvailable | ui/scripts/services/backgrounds.js:61-64 | only the first snapshot resolves the data promise |
| LegacySelector.BackgroundService.OnBackgroundAvailable | ui/scripts/services/backgrounds.js:37-39 | the first-available promise becomes resolved |
| LegacySelector.BackgroundService.GetRandomBackground | ui/scripts/services/backgrounds.js:71-132 | waits for both promises; rejects on a directory error or empty directory; otherwise resolves with the first accepted probe (fresh object, joined path) or null, records it, or throws on a bad index |
| LegacySelector.ProbeNeverLast | ui/scripts/services/backgrounds.js:94-121 | with two or more entries the last entry is never picked, and a throw needs a downloaded entry without a file name |
| LegacySelector.EmptyCatalogFaults | ui/scripts/services/backgrounds.js:94-107 | with an empty catalog the first probe throws |
| LegacySelector.OnlyLastUsableExhausts | ui/scripts/services/backgrounds.js:94-121 | when only the last of two entries is usable, the call resolves with null |
| LegacySelector.FirstUsableWins | ui/scripts/services/backgrounds.js:104-117 | the first usable probe is picked, even a repeat of the last background |
| Selector.Candidates | app/ui/scripts/services/backgrounds.js:75-77 | the candidates are exactly the downloaded entries |
| Selector.Redraw | app/ui/scripts/services/backgrounds.js:108-110 | a redraw is an unchecked value from the remaining draws, and there is none iff every remaining draw is already checked |
| Selector.ProbeFrom | app/ui/scripts/services/backgrounds.js:94-111 | a picked index is a candidate whose joined path is readable |
| Selector.ProbeNeverExhausts | app/ui/scripts/services/backgrounds.js:90-111 | the `checked.length < bgData.length` bound never ends the loop, so a probe picks, hangs or throws, and a throw needs a candidate without a file name |
| Selector.RejectsOnlyWithoutCandidates | app/ui/scripts/services/backgrounds.js:79-118 | the rejection happens iff no entry is downloaded and the notice carried none |
| Selector.SmallCatalogHangs | app/ui/scripts/services/backgrounds.js:89-110 | with one or two candidates the only drawable index is checked by the first probe, so the redraw loop can never exit, whatever the later draws |
| Selector.NoReadableProbe | app/ui/scripts/services/backgrounds.js:94-110 | from any reachable probe state with no readable candidate nothing is picked, and once the draws have covered every drawable index the loop is stuck |
| Selector.NoReadableCandidateHangs | app/ui/scripts/services/backgrounds.js:94-110 | with no readable candidate the call never resolves, rejects or throws, and once the draws have come up with every drawable index it hangs for good |
| Selector.BackgroundService.OnDataAvailable | app/ui/scripts/services/backgrounds.js:56-59 | only the first snapshot resolves the data promise |
| Selector.BackgroundService.OnBackgroundAvailable | app/ui/scripts/services/backgrounds.js:32-34 | only the first notice resolves the first-available promise |
| Selector.BackgroundService.GetRandomBackground | app/ui/scripts/services/backgrounds.js:66-122 | waits for both promises; returns the notice's background when nothing is downloaded; otherwise probes, and resolves, rejects, hangs, throws or is still drawing exactly as `Select` says, recording what it resolves with |
| FixedSelector.PickFrom | app/ui/scripts/services/backgrounds.js:88-111 | a chosen index is a usable entry |
| FixedSelector.PickFromContract | app/ui/scripts/services/backgrounds.js:88-111 | no result iff nothing remaining is usable; a repeat of the last background only when nothing else remaining is usable |
| FixedSelector.PickContract | app/ui/scripts/services/backgrounds.js:88-118 | over the catalog: no result iff nothing is usable; a result is usable; a repeat only when it is the only usable choice |
| FixedSelector.EveryUsableReachable | ui/scripts/services/backgrounds.js:94-121 | every usable entry other than the last shown, the last index included, can be chosen |
| FixedSelector.BackgroundService.GetRandomBackground | app/ui/scripts/services/backgrounds.js:66-122 | the corrected loop always returns `Pick`'s choice and records it by URL |
| Tiles.Find | ui/scripts/controllers/edit-tile.js:118 | `_.has`: the first position with that name, or none iff no category has it |
| Tiles.Put | ui/scripts/controllers/edit-tile.js:126-129 | assigning a key replaces an existing value in place or appends a new key, keeping the others and unique names |
| Tiles.At | ui/scripts/controllers/home.js:376 | an array read is defined iff the index is in range |
| Tiles.RemoveAt | ui/scripts/controllers/home.js:223 | `splice(i, 1)` shifts later tiles down and removes exactly that tile |
| Tiles.InsertAt | ui/scripts/controllers/home.js:373 | `splice(i, 0, t)` shifts tiles up and adds exactly `t` at `i` |
| Tiles.RemoveInserted | ui/scripts/controllers/home.js:223-373 | removing at an index what was inserted there gives the row back |
| Tiles.InsertRemoved | ui/scripts/controllers/home.js:223-373 | inserting back what was removed gives the row back |
| Tiles.Swap | ui/scripts/controllers/home.js:181-183 | the two elements trade places, the rest stay, and the multiset is kept |
| Home.SideMembers | ui/scripts/controllers/home.js:161-163 | each half of the partition holds positions with the right `transient` flag |
| Home.SideAscending | ui/scripts/controllers/home.js:161-163 | each half keeps key order |
| Home.SidesCover | ui/scripts/controllers/home.js:161-163 | the two halves together hold every position exactly once |
| Home.InsertByOrderPerm | ui/scripts/controllers/home.js:165 | one sort step adds exactly the inserted position |
| Home.SortByOrderPerm | ui/scripts/controllers/home.js:165 | `_.sortBy` is a permutation |
| Home.InsertByOrderSorted | ui/scripts/controllers/home.js:165 | one sort step keeps the sequence sorted by order, with ties in key order |
| Home.SortByOrderSorted | ui/scripts/controllers/home.js:165 | `_.sortBy` of key-ordered positions is sorted by `order` and stable |
| Home.MakeCategoryListCovers | ui/scripts/controllers/home.js:160-166 | the list holds every category exactly once |
| Home.MakeCategoryListRanked | ui/scripts/controllers/home.js:160-166 | non-transient categories first, sorted by order with ties in key order; then transient ones in key order |
| Home.MakeCategoryListContract | ui/scripts/controllers/home.js:160-166 | the list is a ranked permutation of the categories |
| Home.RankedDistinct | ui/scripts/controllers/home.js:160-166 | a ranked list has no repeats |
| Home.RankedUnique | ui/scripts/controllers/home.js:160-166 | two ranked arrangements of the same positions are equal |
| Home.CategoryListCharacterised | ui/scripts/controllers/home.js:160-166 | an arrangement of all categories is the category list iff it is ranked |
| Home.ListEndsTransient | ui/scripts/controllers/home.js:160-166 | with a transient category present, the list ends on one |
| Home.SystemListedLast | ui/scripts/controllers/home.js:104-146 | when only System is transient, `init` leaves System last in the list |
| Home.InitListFacts | ui/scripts/controllers/home.js:104-147 | the list `init` builds is a permutation of the categories, with System last when it is the only transient one |
| Home.SwapOrdersSymmetric | ui/scripts/controllers/home.js:461-464 | trading orders between two categories is symmetric |
| Home.SwapOrdersKeeps | ui/scripts/controllers/home.js:461-464 | trading orders keeps names, flags, rows and all tiles, and keeps ordinary orders distinct |
| Home.SwapAndRebuild | ui/scripts/controllers/home.js:459-490 | after trading orders, the rebuilt list is again a permutation over the same tiles |
| Home.ArrangeSwapsNeighbours | ui/scripts/controllers/home.js:459-490 | with distinct orders, trading the orders of a neighbouring ordinary pair swaps exactly that pair in the rebuilt list |
| Home.ArrangePair | ui/scripts/controllers/home.js:459-490 | the same from either member of the pair, with orders kept distinct |
| Home.SwappedRanked | ui/scripts/controllers/home.js:459-490 | after the trade, the list with the pair swapped is ranked |
| Home.StepCarriesTile | ui/scripts/controllers/home.js:216-251 | moving across categories changes only the two rows and leaves the carried tile under the cursor, at its old index or the end of a shorter row |
| Home.StepKeepsTiles | ui/scripts/controllers/home.js:223-228 | moving a tile across categories keeps the multiset of all tiles |
| Home.StepSelects | ui/scripts/controllers/home.js:226-228 | a step without moving changes only the cursor, which lands on a tile whenever the new row has one |
| Home.ProperTileSelects | ui/scripts/controllers/home.js:363-379 | keeps an in-range index and clamps the others; a carried tile joins the row under the cursor; without carrying, only the cursor changes |
| Home.StepIsProperTile | ui/scripts/controllers/home.js:216-251 | a category step is the splice out of the old row followed by `selectProperCategoryTile` on the new one |
| Home.RightStepKeeps | ui/scripts/controllers/home.js:178-189 | 'right' increments the index iff it is before the last tile, keeps other rows, and keeps a carried tile selected |
| Home.RightStepKeepsTiles | ui/scripts/controllers/home.js:179-186 | 'right' keeps every tile |
| Home.LeftStepKeeps | ui/scripts/controllers/home.js:197-209 | 'left' decrements the index iff it is positive, keeps other rows, and keeps a carried tile selected |
| Home.LeftStepKeepsTiles | ui/scripts/controllers/home.js:198-205 | 'left' keeps every tile |
| Home.LeftUndoesRight | ui/scripts/controllers/home.js:178-209 | 'left' after 'right' restores the row, the index and the selection |
| Home.DeletedRemovesOne | ui/scripts/controllers/home.js:718 | deleting removes exactly the selected tile from the collection |
| Home.DeleteWalkLands | ui/scripts/controllers/home.js:718-728 | the skip walk followed by the clamp gives the outcome of `DeletedFrom` |
| Home.SkipEmpty | ui/scripts/controllers/home.js:720-722 | the walk stops at the first row with tiles, all rows before it empty |
| Home.ArrangeUpKeeps | ui/scripts/controllers/home.js:455-472 | category 'up' keeps the layout well formed and every tile, and moves the cursor up unless at the top |
| Home.ArrangeUpSwaps | ui/scripts/controllers/home.js:459-466 | arranging up swaps the selected category with the one above, which stays under the cursor, and keeps orders distinct |
| Home.ArrangeDownKeeps | ui/scripts/controllers/home.js:474-491 | category 'down' keeps the layout and every tile, never reaches the last listed category, and moves down otherwise |
| Home.ArrangeDownSwaps | ui/scripts/controllers/home.js:478-485 | arranging down swaps the selected category with the one below, which stays under the cursor, and keeps orders distinct |
| Home.HomeController.constructor | ui/scripts/controllers/home.js:29-36 | the controller's initial field values |
| Home.HomeController.Init | ui/scripts/controllers/home.js:104-152 | installs System, rebuilds the list, and re-selects the category and, when in range, the tile |
| Home.HomeController.SelectProperCategoryTile | ui/scripts/controllers/home.js:363-379 | the new state is `ProperTile` of the old one |
| Home.HomeController.Right | ui/scripts/controllers/home.js:178-189 | the new state is `RightStep` of the old one; all tiles kept; tile mode kept |
| Home.HomeController.Left | ui/scripts/controllers/home.js:197-209 | the new state is `LeftStep` of the old one; all tiles kept; tile mode kept |
| Home.HomeController.StepTo | ui/scripts/controllers/home.js:223-228 | splice, select, then `selectProperCategoryTile` equals `StepCategory` |
| Home.HomeController.Down | ui/scripts/controllers/home.js:216-230 | steps to the next category unless at the end or carrying into a transient one, which changes nothing; all tiles kept |
| Home.HomeController.Up | ui/scripts/controllers/home.js:237-251 | the mirror of 'down' |
| Home.HomeController.EditCategories | ui/scripts/controllers/home.js:419-433 | selects the given list position, or moves the cursor up one, and enters category mode |
| Home.HomeController.EditRight | ui/scripts/controllers/home.js:435-443 | unless arranging, selects the stop-editing option |
| Home.HomeController.EditLeft | ui/scripts/controllers/home.js:445-453 | unless arranging, goes back from the stop-editing option to the category under the cursor |
| Home.HomeController.ArrangeUp | ui/scripts/controllers/home.js:455-472 | the new layout is `ArrangeUpStep` of the old one |
| Home.HomeController.ArrangeDown | ui/scripts/controllers/home.js:474-491 | the new layout is `ArrangeDownStep` of the old one |
| Home.HomeController.FinishEditing | ui/scripts/controllers/home.js:496-505 | back to tile mode on the last listed category at tile index 1 |
| Home.HomeController.DeleteSelectedTile | ui/scripts/controllers/home.js:717-728 | the tile leaves its row, the cursor skips the empty rows, the index is clamped and the tile there selected |
| EditTile.RouteSlot | ui/scripts/controllers/edit-tile.js:31-33 | the route names a tile iff its category is a non-empty existing key and the index is below that row's length |
| EditTile.SaveAsWritten | ui/scripts/controllers/edit-tile.js:75-80 | throws iff the tile's category is missing; otherwise only that row changes, at the route index or by a push |
| EditTile.SaveAsWrittenDuplicates | ui/scripts/controllers/edit-tile.js:76-77 | a tile moved to another category overwrites a tile there and stays in its old row |
| EditTile.SaveAsWrittenExample | ui/scripts/controllers/edit-tile.js:76-77 | a concrete two-category instance of the duplication |
| EditTile.SaveCorrected | ui/scripts/controllers/edit-tile.js:75-80 | fails iff the tile's category is missing, and keeps the number of categories |
| EditTile.SaveInPlace | ui/scripts/controllers/edit-tile.js:76-77 | a tile saved into its own category replaces itself |
| EditTile.SaveMoves | ui/scripts/controllers/edit-tile.js:76-77 | a tile saved into another category leaves its old row and joins the end of the new one |
| EditTile.SaveAdds | ui/scripts/controllers/edit-tile.js:78-79 | a new tile is pushed onto its category's row |
| EditTile.SaveCorrectedKeepsAll | ui/scripts/controllers/edit-tile.js:75-80 | the corrected save neither loses nor duplicates a tile |
| EditTile.FilterTransient | ui/scripts/controllers/edit-tile.js:156-162 | the result holds exactly the non-transient categories |
| EditTile.FilterTransientConcat | ui/scripts/controllers/edit-tile.js:156-162 | filtering distributes over concatenation, so order is kept |
| EditTile.FilterTransientKeeps | ui/scripts/controllers/edit-tile.js:156-162 | filtering is idempotent and keeps a list with no transient category whole |
| EditTile.EditTileController.constructor | ui/scripts/controllers/edit-tile.js:17-21 | a blank tile, no categories yet |
| EditTile.EditTileController.Load | ui/scripts/controllers/edit-tile.js:23-34 | a missing categories object becomes empty; the route's tile, when it exists, becomes the edited tile |
| EditTile.EditTileController.Edit | ui/scripts/controllers/edit-tile.js:33 | editing the shared tile changes it in its row too |
| EditTile.EditTileController.Save | ui/scripts/controllers/edit-tile.js:75-80 | the stored categories are `SaveAsWritten`'s |
| EditTile.EditTileController.AddCategory | ui/scripts/controllers/edit-tile.js:117-143 | an existing name only becomes the tile's category; a new one is added empty, with order 1 when it is the only one, and becomes the tile's category |
| HotkeyDialogs.WaitFor | ui/scripts/services/hotkey-dialog.js:143-153 | `wait` stores the argument iff it is object-like, otherwise a settled promise |
| HotkeyDialogs.WaitForCases | ui/scripts/services/hotkey-dialog.js:143-153 | undefined, null, numbers and functions get a settled promise; an object is kept |
| HotkeyDialogs.HotkeyDialog.constructor | ui/scripts/services/hotkey-dialog.js:58-86 | defaults: [No, Yes] without icons, label "Dialog", the standard template, a settled wait |
| HotkeyDialogs.HotkeyDialog.Prompt | ui/scripts/services/hotkey-dialog.js:128-131 | sets only the text and returns the same dialog |
| HotkeyDialogs.HotkeyDialog.Template | ui/scripts/services/hotkey-dialog.js:133-136 | sets only the template and returns the same dialog |
| HotkeyDialogs.HotkeyDialog.Actions | ui/scripts/services/hotkey-dialog.js:138-141 | sets only the buttons and returns the same dialog |
| HotkeyDialogs.HotkeyDialog.WaitOn | ui/scripts/services/hotkey-dialog.js:143-153 | sets only the wait promise and returns the same dialog |
| HotkeyDialogs.HotkeyDialog.Aria | ui/scripts/services/hotkey-dialog.js:155-158 | sets only the label and returns the same dialog |
| HotkeyDialogs.DialogController.constructor | ui/scripts/services/hotkey-dialog.js:88-91 | the cursor starts at 0, enter not bound |
| HotkeyDialogs.DialogController.Settle | ui/scripts/services/hotkey-dialog.js:93-101 | enter becomes bound once the wait settles |
| HotkeyDialogs.DialogController.Right | ui/scripts/services/hotkey-dialog.js:105-113 | increments only below the last button, keeping the cursor on a button |
| HotkeyDialogs.DialogController.Left | ui/scripts/services/hotkey-dialog.js:115-123 | decrements only above 0, keeping the cursor on a button |
| HotkeyDialogs.DialogController.Enter | ui/scripts/services/hotkey-dialog.js:93-100 | before the wait settles nothing happens; after it, the dialog closes with the button under the cursor |
| ErrorMessage.MessageAsWritten | ui/scripts/services/error.js:10-23 | a string is its own message; a non-object gets the default; it throws iff the rejection or its `error` is null |
| ErrorMessage.NullRejectionThrows | ui/scripts/services/error.js:15-18 | `null` and `{error: null}` throw before any dialog |
| ErrorMessage.Message | ui/scripts/services/error.js:10-23 | the corrected choice is the string itself, the default, or one of the `error`, `error.message` and `message` values |
| ErrorMessage.MessageAgrees | ui/scripts/services/error.js:10-23 | wherever the code shows a dialog, the corrected choice shows the same text |
| ErrorMessage.ErrorBeforeMessage | ui/scripts/services/error.js:16-17 | a string `error` wins over `message` |
| ErrorMessage.NestedMessageBeforeMessage | ui/scripts/services/error.js:18-19 | a truthy `error.message` comes before the top-level `message` |
| ErrorMessage.TopLevelMessage | ui/scripts/services/error.js:20-21 | without a usable `error`, a truthy `message` is used |
| ErrorMessage.DefaultOtherwise | ui/scripts/services/error.js:11-23 | anything else gets "An unhandled error has occurred." |

## Left out

- Electron IPC, promises and `$q`. These are modelled as stored values and as the
  `Settlement` outcome rather than as asynchronous delivery.
- Notice channels. The backend's 'backgrounds-error' channel does not match the renderer's
  'background-error' listener, and the notice toasts are not modelled.
- The `bgWindow` send at backend/backgrounds.js:192, which throws after the merged list is
  saved. The save of the merged list (190-194) is left out of `LoadAndDownload`.
- Downloads.LoadAndDownload: models the completion as evidently intended. The walk reports
  errors and goes on, and `'backgrounds-downloaded'` and the cleanup follow it. As written,
  the swapped executor settles it by parity; see "## Findings".
- `cleanBackgrounds` as written (backend/backgrounds.js:26). It calls `fs.readDir`, which
  Node's `fs` does not have, and names the undeclared `BACKGROUND_SAVE_PATH`, so it throws
  before deleting anything. `Orphans` models the evidently intended predicate over a given
  directory listing.
- Orphan deletion. `fs.unlink` is not modelled, and `Orphans` is the list of files to delete.
- JSON parsing, HTTP status codes, stream errors and `request`. A load, a fetch, a mkdir,
  a download or a save is a success flag.
- Node path normalisation. `Join` assumes a plain file name.
- Paths ending in '/'. Node's `basename` and `extname` ignore trailing '/' characters
  (`basename("a/b/")` is "b"), and `Basename` and `Extname` do not. Their arguments here
  never end in '/': directory entries from `readdir` have no '/', and catalog URLs are
  taken to name a file, not to end in '/'.
- Tiles.Put: appends a new key at the end. A JavaScript object lists keys that are
  canonical array indices (a category named "2024") first, in ascending numeric order. The
  model assumes that no category name is such a key, and so does the key-order tie-break of
  `makeCategoryList` in `Home`.
- EditTile.EditTileController.AddCategory: places a new category last, under the same
  assumption that its name is not an integer-like key.
- Selector.BackgroundService.GetRandomBackground: the random redraws are a finite sequence
  the caller supplies. When it runs out inside the redraw loop and a further draw could
  still end the loop, the call is `Drawing` rather than a settlement. One exception: a
  candidate has already been accepted. The pick then stands, because the next unchecked
  draw, which random draws reach with probability one, ends the loop.
- `sha1` collisions: the hash is uninterpreted.
- JavaScript numbers. They are integers here, so NaN, fractions and `-0` are not modelled;
  `-0` is the same as 0.
- Array holes and sparse arrays. `route :tile` is a natural number, and a save index past
  the end of the row is the `PastEnd` outcome instead of a hole.
- `null` versus `undefined`: both are `Option.None` where the code only tests truthiness.
- Tile colours, images, the random colour of a new tile and the file dialog.
- The System category's `order` (ui/scripts/controllers/home.js:109-111) and the new
  category's `order` (ui/scripts/controllers/edit-tile.js:136-140). Both come from broken
  reductions and are parameters (`systemOrder`, `laterOrder`).
- Home.ArrangeUpSwaps and Home.ArrangeDownSwaps: need `DistinctOrders`. With shared `order`
  values, trading orders can leave the list unchanged, and nothing is claimed then.
- Home.HomeController.ArrangeUp, ArrangeDown, Right and Left: apply their step function
  (`ArrangeUpStep`, `ArrangeDownStep`, `RightStep`, `LeftStep`) instead of the source's
  statement-by-statement updates. 'right' and 'left' write `selectedTile` into the
  neighbour's slot, which is the swap `RightStep` describes whenever the carried tile is
  the one under the cursor (as `Browsing` requires).
- Home.HomeController.Init: requires the stored category index to lie within the new list.
  The source throws otherwise, and that throw is not modelled.
- Home.HomeController.EditCategories: requires the index to stay within the list. The
  source reads past the list otherwise, and that read is not modelled.
- Home.HomeController.DeleteSelectedTile: requires what `init` and the enter-hold path
  guarantee. The last listed category (System) holds only transient tiles and is never
  empty, and only non-transient tiles reach `deleteTile`. The walk running past the list is
  not modelled.
- Home screen wiring: DOM scrolling, tile styles and ids, hotkey rebinding and hold timers,
  and the confirmation dialogs, which are taken as answered.
- Home screen operations: `activate`'s `camelCase` dispatch, `renameCategory`,
  `deleteCategory`, `startEditing`, the enter-while-moving save, and the `SettingsService`
  saves.
- ui/scripts/services/settings.js, main.js, app/main.js, both app.js route files, the
  toolbar clock and the app settings controller. These are I/O, windowing and routing
  outside this model.
- HotkeyDialog `show()`: displaying the dialog is left out.
- Downloads.AsWrittenStopsAtFailure: states only that the walk stops and leaves later
  entries alone, not the exact notices sent before the throw.

## Findings

| source | as written | input that shows it | evidently intended | confidence | as-written member | corrected member |
|---|---|---|---|---|---|---|
| backend/backgrounds.js:87-95 | a failed download or save calls `send` on the undeclared `bgWindow`, which throws before the recursive call, so the walk stops | two undownloaded entries whose first download fails: the second is never downloaded | report the error and go on to the next index | not executed | Downloads.AsWrittenStopsAtFailure | Downloads.DownloadWalkContract |
| backend/backgrounds.js:51 | the executor names its parameters `(reject, resolve)`, so a completed walk settles by parity | a catalog of two entries: the walk's promise rejects, so 'backgrounds-downloaded' and the cleanup never run | resolve whenever the walk reaches the end | not executed | Downloads.SwappedResolvesParity | Downloads.LoadAndDownload |
| ui/scripts/services/backgrounds.js:94-121 | the draw `floor(random() * (len - 1))` never yields `len - 1` | two entries of which only the second is usable: the call resolves with `null` | draw over all `len` indices | not executed | LegacySelector.OnlyLastUsableExhausts | FixedSelector.EveryUsableReachable |
| ui/scripts/services/backgrounds.js:104-117 | `background === lastBackground` compares a freshly built object, so a repeat is never detected | a catalog whose first usable probe is the entry shown last time: it is shown again | skip the last background when another one is usable | not executed | LegacySelector.FirstUsableWins | FixedSelector.PickContract |
| app/ui/scripts/services/backgrounds.js:108-110 | the redraw loop needs an unchecked index, but only `len - 1` values can be drawn | one or two downloaded entries: every draw is 0 and, after the first probe, the loop never exits | probe each candidate at most once and then settle | not executed | Selector.SmallCatalogHangs | FixedSelector.PickContract |
| ui/scripts/controllers/edit-tile.js:76-77 | `save` with a route tile writes at the route index of the tile's new category | tile 0 of category A moved to B: B's tile 0 is lost and the tile is held in both rows | leave the old row and join the new one | not executed | EditTile.SaveAsWrittenDuplicates | EditTile.SaveCorrectedKeepsAll |
| ui/scripts/services/error.js:15-18 | `typeof null` is 'object', so `rejection.error` (or `.message` of a null `error`) is read from `null` | a rejection `null`, or `{error: null, message: "lost"}`: a TypeError, and no dialog | fall through to the later checks and the default | not executed | ErrorMessage.NullRejectionThrows | ErrorMessage.MessageAgrees |

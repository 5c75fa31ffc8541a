# Plot managers of the dyre and dynafresh browser clients

The repository serves a web page that shows live-refreshing image plots. The
browser side keeps a *plot manager*, a small state machine over:

- a table of plots keyed by id;
- an id allocator (`nextPlotId`);
- the visible order of the plot containers;
- the messages it sends to the server (`watchFilepath` and `unwatch`);
- three `localStorage` keys: the shared `recentPaths` list, and the saved
  sessions `dyreSession` and `dynafreshSession`.

This project models two versions of that manager in Dafny and proves what they
promise.

- **dyre** (`public/dyre.js`) is the current client. Each plot is bound to a
  source path (`fullFilepath`).
  - `Plot.watchFile` rebinds a plot. It does nothing for a blank path, and
    nothing for the plot's own path unless forced.
  - `createPlot` takes the next id or an explicit one. It keeps `nextPlotId`
    above every live id, as long as ids stay below 2^53 (see "## Left out").
  - Every user action (create, remove, clear-all, change of path) is recorded
    on a linear undo stack. A new command empties the redo stack.
  - `undo` and `redo` replay the inverse or the command itself with
    `isRestoring` set. This suppresses further history and session saves.
  - `saveSession` stores the `{plotId, filepath}` of every bound plot in
    visible order. `restoreSession` recreates them under their saved ids on an
    empty manager.
  - `resubscribePlots` re-sends `watchFilepath` for every bound plot after a
    reconnect.
  - `addRecentPath` keeps a de-duplicated most-recent-first list of at most 10
    paths.
  - `filenameFromPath` cuts a path to its last component.
- **dynafresh** (`public/dynafresh.js`) is the earlier client, with no undo or
  redo.
  - A plot has the text of its path input (what the session saves and
    `watchFile` sends). Separately, it has the image path the server last
    reported (`filepath`, set by `loadImage`).
  - `findPlotByFilepath` compares the reported image path, not the input.
    `watchFilepath` therefore opens a second plot on a path whose first plot
    has not heard from the server yet (`DynafreshProperties.WatchedTwiceBeforeLoad`).
    The check fires only once the server has reported that same path as the
    image path (`DynafreshProperties.WatchedAfterLoad`). The server in
    `app.js` reports a different, served path (`images/<base name>`), so for
    a typed source path the check normally never matches.
  - `restoreSession` opens a plot for every stored entry with a non-empty
    path, under fresh ids from the allocator. It ignores the saved ids.
  - `addRecentPath` has a caller-chosen cap (`maxpaths`, 10 by default) and no
    guard against an empty path.

## How it is modelled

- Each manager is a `class PlotManager`. Its fields are:
  - the plot table `plots` (a `map` from id to a `Plot` record);
  - `order` (the container order, which is also the insertion order of the
    source's `Map`);
  - `nextPlotId`, `isRestoring` and the emitted messages `sent`;
  - for dyre, the two command stacks.
- `localStorage` is a class `Common.LocalStorage` with one field per key. A
  stored session that does not parse is the value `Corrupt`.
- The methods the source puts on a `Plot` object (`watchFile`, `remove`) are
  manager methods that take the plot's id or record.
- Each state-changing method is proved against a pure function on a
  `PlotTable` value: `Rebound`, `CreatedAt`, `Closed`, `Recreated`,
  `ClosedAll`, `Undone`, `Redone`, `Opened`, `WatchedPath`, `Restored` and
  `Received`. The properties that relate several operations are lemmas about
  those functions, in `DyreProperties` and `DynafreshProperties`. They cover:
  - undo after create, remove, change of path and clear-all;
  - redo after undo;
  - the save–restore–save round trip;
  - clear-all leaving nothing;
  - the dynafresh duplicate check.
- `Valid()` is the invariant every method keeps:
  - every plot is filed under its own id, below `nextPlotId`;
  - in dyre, every plot is bound to a trimmed path;
  - the container order lists every plot exactly once.
- JavaScript's `String.prototype.trim` is `Strings.Trim`, over ECMAScript's
  white space and line terminators. `Array.prototype.filter` and `slice` are
  `Lists.Without` and `Lists.Take`. An absent (`null`) dyre path is `""`:
  every test a null path reaches in `dyre.js` treats both as false. The one
  test that tells them apart, `typeof filepath === 'string'` in `watchFile`,
  is never passed `null`. The image path of a dynafresh
  plot is an `Option`, because `findPlotByFilepath` tells `null` and `""`
  apart.

## Model

| member | source | states |
|---|---|---|
| Common.Max | public/dyre.js:484 | `Math.max`: the result is at least both arguments and is one of them |
| Strings.Trim | public/dyre.js:318 | `trim()` yields a string that starts and ends with no whitespace |
| Strings.TrimStartCutsWhitespace | public/dyre.js:318 | trimming the start removes a prefix made only of whitespace and leaves a string that does not start with whitespace |
| Strings.TrimEndCutsWhitespace | public/dyre.js:318 | trimming the end removes a suffix made only of whitespace and leaves a string that does not end with whitespace |
| Strings.TrimIsTrimmed | public/dynafresh.js:329-331 | trimming leaves a string unchanged exactly when it has no whitespace at either end, so trimming twice is trimming once |
| Strings.TrimBlank | public/dynafresh.js:329 | a string trims to "" exactly when it is all whitespace (the `!filepath.trim()` blank test) |
| Strings.TrimIsSlice | public/dynafresh.js:145 | the trimmed string is a contiguous slice of the input, with only whitespace cut on either side |
| Lists.Without | public/dyre.js:41 | `filter((e) => e !== x)` keeps every element different from `x` as often as it occurs, in their order, and no occurrence of `x` |
| Lists.Take | public/dyre.js:36 | `slice(0, n)` is the first `min(n, length)` elements |
| RecentPaths.MoveToFrontProperties | public/dyre.js:39-44 | after moving a path to the front: at most `cap` entries; when `cap > 0` the path is first and occurs exactly once; the other entries keep their relative order; no duplicates appear if there were none; nothing is lost while under the cap |
| Dyre.LastIndexOf | public/dyre.js:18 | `lastIndexOf` returns -1 or a position holding the character, with no later occurrence |
| Dyre.FilenameFromPath | public/dyre.js:16-20 | "" for an empty path; the whole path when it has no `/` or `\`; otherwise a suffix with no separator that directly follows a separator |
| Dyre.SetRecentPaths | public/dyre.js:35-37 | stores the first `MAX_RECENT_PATHS` (10) paths of the list |
| Dyre.AddRecentPath | public/dyre.js:39-44 | an empty path leaves the list unchanged; otherwise the list becomes the path moved to the front, capped at 10 (properties in `RecentPaths.MoveToFrontProperties`) |
| Dyre.Snapshot | public/dyre.js:528-531 | the clear-all snapshot has one entry per container |
| Dyre.SnapshotEntries | public/dyre.js:528-531 | entry `i` of the snapshot is the id and path of the `i`-th plot in visible order |
| Dyre.BoundKeepsBoundEntries | public/dyre.js:571-575 | the bound entries of a list are exactly its entries with a non-empty path, in their order |
| Dyre.SessionIsBoundSnapshot | public/dyre.js:680-697 | on a consistent table the saved session is the clear-all snapshot without the unbound plots |
| Dyre.Listed | public/dyre.js:535 | `Array.from(plots.values())`: the plot records in visible order, one per container |
| Dyre.Present | public/dyre.js:615-617 | the plots a redo of clear-all removes: at most one per snapshot entry, each the live plot an entry names, every live plot the snapshot names included; when every entry is live, exactly those plots in snapshot order |
| Dyre.Registered | public/dyre.js:481-488 | registering `new Plot(id)` keeps the table consistent and makes `id` live |
| Dyre.CreatedAt | public/dyre.js:481-492 | `createPlot` keeps the table consistent (in particular `nextPlotId` stays above every live id) |
| Dyre.CreatedAtEffect | public/dyre.js:481-492 | after `createPlot(filepath, {plotId: id})`: the plot `id` is bound to the trimmed path and every other plot is unchanged; the container is appended unless the id was live; `nextPlotId` is `max(nextPlotId, id + 1)`; one `watchFilepath` is sent exactly when the trimmed path is non-empty |
| Dyre.Closed | public/dyre.js:428-440 | `plot.remove()` removes exactly that id, keeps every other plot and the allocator, and keeps the table consistent |
| Dyre.Rebound | public/dyre.js:317-352 | `watchFile` keeps the set of live plots and the table's consistency |
| Dyre.Recreated | public/dyre.js:571-575 | recreating the bound entries keeps the table consistent and never lowers `nextPlotId` |
| Dyre.ClosedAll | public/dyre.js:537 | removing a list of plots removes exactly their ids and keeps the allocator and the table's consistency |
| Dyre.ReboundOwnPath | public/dyre.js:721-731 | a forced `watchFile` of a plot on its own path changes no plot and only re-sends its `watchFilepath` |
| Dyre.WatchesStep | public/dyre.js:721-731 | the resubscription messages for one more container grow by that plot's message exactly when it is bound |
| Dyre.Undone | public/dyre.js:558-587 | undoing any command keeps the table consistent |
| Dyre.Redone | public/dyre.js:602-630 | redoing any command keeps the table consistent |
| Dyre.PlotManager.constructor | public/dyre.js:443-455 | a new manager has no plots, allocates from 1, is not restoring, and has empty stacks |
| Dyre.PlotManager.SaveSession | public/dyre.js:680-697 | the stored session is the bound plots in visible order |
| Dyre.PlotManager.AddToHistory | public/dyre.js:544-548 | pushes the command and empties the redo stack |
| Dyre.PlotManager.WatchFile | public/dyre.js:317-352 | the table becomes `Rebound`, so a blank path or the plot's own path without `force` changes nothing and sends nothing; exactly one `changeFilepath{previous, target}` is recorded when the path changed from a non-empty one with `recordHistory` and not restoring, and the stacks are otherwise untouched; the session is saved only when a message was sent, `saveSession` holds and the manager is not restoring |
| Dyre.PlotManager.CreatePlot | public/dyre.js:481-503 | without an id it takes the old `nextPlotId` (not live) and increments it; with one it uses that id; the table becomes `CreatedAt`; one `create` is recorded (redo cleared) exactly when `trackHistory` holds and not restoring; the session is saved unless restoring |
| Dyre.PlotManager.AddPlot | public/dyre.js:487-488 | `plots.set(id, new Plot(id))`: the entry is unbound, and its container is appended unless the id was live |
| Dyre.PlotManager.RemovePlot | public/dyre.js:505-523 | deletes exactly that id and its container; an unknown id changes nothing; one `remove` with the plot's path is recorded when asked and not restoring; the session is saved unless restoring |
| Dyre.PlotManager.ClosePlot | public/dyre.js:428-440 | for the live record of a plot, the table becomes `Closed`: an `unwatch` for a bound plot, then the removal, with `RemovePlot`'s history and session effects |
| Dyre.PlotManager.RecreateAll | public/dyre.js:570-577 | the loop leaves the table `Recreated` from the entries and records and saves nothing |
| Dyre.PlotManager.CloseAll | public/dyre.js:537 | the loop leaves the table `ClosedAll` of the plots and records and saves nothing |
| Dyre.PlotManager.ClearAllPlots | public/dyre.js:525-542 | an empty table is a no-op; otherwise exactly one `clearAll` holding the visible-order snapshot is recorded, the redo stack is emptied, every listed plot is removed, `isRestoring` ends false, and the now-empty session is saved |
| Dyre.PlotManager.Undo | public/dyre.js:550-592 | an empty undo stack changes nothing; otherwise exactly the top command moves to the redo stack, the table becomes `Undone` of it, nothing else is recorded, `isRestoring` ends false and the session is saved |
| Dyre.PlotManager.Revert | public/dyre.js:558-587 | the per-command inverse replay, run while restoring, gives `Undone` and touches neither stack nor the stored session |
| Dyre.PlotManager.Redo | public/dyre.js:594-635 | an empty redo stack changes nothing; otherwise exactly the top command moves back to the undo stack, the table becomes `Redone` of it, nothing else is recorded, `isRestoring` ends false and the session is saved |
| Dyre.PlotManager.Replay | public/dyre.js:602-630 | the per-command replay, run while restoring, gives `Redone` and touches neither stack nor the stored session |
| Dyre.PlotManager.FindPlotByFilepath | public/dyre.js:649-657 | none for an empty path or when no plot is bound to it; otherwise a live plot bound to exactly that path, the first such in visible order |
| Dyre.PlotManager.WatchFilepath | public/dyre.js:659-678 | none exactly for a blank path; a plot already bound to the trimmed path is returned and nothing changes; otherwise a new plot under the old `nextPlotId` is bound to the trimmed path, with a `create` that carries an empty path |
| Dyre.PlotManager.OpenPlot | public/dyre.js:670-671 | `createPlot(null)` then `watchFile(target)`: a plot under the old `nextPlotId`, not live before, bound to the target; its `create` carries no path and is recorded (redo cleared) and the session saved unless restoring |
| Dyre.PlotManager.RestoreSession | public/dyre.js:699-719 | restores exactly when the manager is empty and a non-empty list is stored; it then recreates the bound entries under their ids, ends not restoring and saves; otherwise nothing changes; the stacks are never touched |
| Dyre.PlotManager.ResubscribePlots | public/dyre.js:721-731 | no plot changes; the messages sent are one `watchFilepath` per saved session entry, in visible order; nothing is recorded or saved |
| Dyre.PlotManager.ReceiveFilepath | public/dyre.js:739-751 | when the plot exists, is bound and the server reports content, its path moves to the front of the recent paths; otherwise the list is unchanged |
| DyreProperties.SavedIdsListed | public/dyre.js:680-697 | every id in a saved session has a container |
| DyreProperties.SavedIsRestorable | public/dyre.js:680-697 | a consistent table saves non-empty trimmed paths under distinct ids |
| DyreProperties.SessionOfIgnoresUnlisted | public/dyre.js:684-694 | a plot without a container does not affect the saved session |
| DyreProperties.RestoreStep | public/dyre.js:710-714 | recreating one saved entry whose id is free appends its container and extends the saved session by that entry |
| DyreProperties.RestorePrefixThenSave | public/dyre.js:699-719 | restoring any prefix of a restorable session on an empty manager saves exactly that prefix, with the containers in its order |
| DyreProperties.RestorePrefixStep | public/dyre.js:710-714 | the inductive step of the restore round trip |
| DyreProperties.RestoreThenSave | public/dyre.js:699-719 | restore followed by save on an empty manager gives the stored list back, with the containers in its order |
| DyreProperties.RecreatedSkipsUnbound | public/dyre.js:571-575 | recreating a snapshot is the same as recreating its bound entries alone |
| DyreProperties.EntriesOf | public/dyre.js:528-531 | one `{plotId, filepath}` per plot record |
| DyreProperties.SnapshotIsListed | public/dyre.js:528-535 | the snapshot is the id and path of each plot `clearAllPlots` removes |
| DyreProperties.ClosedAllSent | public/dyre.js:537 | removing plots one by one sends an `unwatch` for each bound one, in order |
| DyreProperties.ClosedPrefix | public/dyre.js:537 | removing the first `k` listed plots leaves the remaining containers |
| DyreProperties.ClearedTable | public/dyre.js:525-542 | clear-all leaves no plot and no container, keeps the allocator, and sends `unwatch` for every bound plot in visible order |
| DyreProperties.ClearedPlots | public/dyre.js:535-537 | removing every listed plot leaves the table empty |
| DyreProperties.UndoClearAllRestoresSession | public/dyre.js:570-576 | undoing a clear-all brings back exactly the bound plots: the same saved session as before and their containers in their old order, with no unbound plot |
| DyreProperties.RedoClearAll | public/dyre.js:614-618 | redoing a clear-all after undoing it leaves no plot and no container, and keeps the allocator |
| DyreProperties.ClosedAllNamed | public/dyre.js:614-618 | closing the live plots a list of entries names empties the table when the entries name every live plot |
| DyreProperties.UndoCreate | public/dyre.js:559-565 | undoing a create gives back the plots and containers from before it, whatever path the command recorded |
| DyreProperties.RedoCreate | public/dyre.js:603-606 | redoing an undone create makes the plot again with the recorded path; the empty path `watchFilepath` records gives an unbound plot |
| DyreProperties.UndoRemove | public/dyre.js:566-569 | undoing a remove restores the plot under its id with its path; the container comes back last and the allocator is unchanged |
| DyreProperties.UndoRedoChangeFilepath | public/dyre.js:578-584 | undoing a change of path rebinds the plot to the old path with plots and order as before, and redoing it rebinds the new path |
| Dynafresh.AddRecentPath | public/dynafresh.js:468-477 | the list becomes the path moved to the front and capped at `maxpaths`, blank paths included (properties in `RecentPaths.MoveToFrontProperties`) |
| Dynafresh.Created | public/dynafresh.js:292-306 | `createPlot` keeps the table consistent |
| Dynafresh.Opened | public/dynafresh.js:348-350 | creating a plot, setting its input and watching it keeps the table consistent |
| Dynafresh.WatchedPath | public/dynafresh.js:328-358 | `watchFilepath` keeps the table consistent |
| Dynafresh.Restored | public/dynafresh.js:399-406 | a restore keeps the table consistent |
| Dynafresh.Received | public/dynafresh.js:433-448 | recording a reported image path keeps the table consistent |
| Dynafresh.Closed | public/dynafresh.js:240-254 | `plot.remove()` removes exactly that id, keeps the allocator and keeps the table consistent |
| Dynafresh.PlotManager.constructor | public/dynafresh.js:257-266 | a new manager has no plots, allocates from 1 and is not restoring |
| Dynafresh.PlotManager.SaveSession | public/dynafresh.js:361-381 | stores the entries of the plots with a non-empty input, in visible order |
| Dynafresh.PlotManager.CreatePlot | public/dynafresh.js:292-306 | the id is the old `nextPlotId`, never handed out before, and the allocator moves past it; the new plot has an empty input and has loaded the given path when it is non-empty; its container goes last; the session is saved unless restoring |
| Dynafresh.PlotManager.RemovePlot | public/dynafresh.js:312-315 | deletes exactly that id and its container and always saves the session |
| Dynafresh.PlotManager.ClosePlot | public/dynafresh.js:240-254 | for the live record of a plot, the table becomes `Closed`: an `unwatch` for a loaded image path, then the removal and a save |
| Dynafresh.PlotManager.WatchFile | public/dynafresh.js:144-157 | for a non-blank trimmed input, the path moves to the front of the recent paths and one `watchFilepath` is sent; the session is saved unless restoring; a blank input changes nothing |
| Dynafresh.PlotManager.EditInput | public/dynafresh.js:107-115 | the typed text replaces only that plot's input, then `watchFile` acts on it: a non-blank trimmed value moves to the front of the recent paths, is sent once, and the session is saved unless restoring; a blank value changes nothing else |
| Dynafresh.PlotManager.FindPlotByFilepath | public/dynafresh.js:318-325 | none exactly when no plot has loaded that image path; otherwise a live plot that has, the first such in visible order |
| Dynafresh.PlotManager.WatchFilepath | public/dynafresh.js:328-358 | none exactly for a blank path; a plot that has loaded the trimmed path is returned and nothing is created or saved; otherwise exactly one new plot under a never-issued id takes the trimmed path (see `WatchedPathOpensOne`) |
| Dynafresh.PlotManager.OpenPlot | public/dynafresh.js:348-350 | `createPlot()`, the input set, then `watchFile()`, for a non-blank path or during a restore (its only two uses): the table becomes `Opened` under a never-issued id, the trimmed path moves to the front of the recent paths, and the session is saved unless restoring |
| Dynafresh.PlotManager.ReceiveFilepath | public/dynafresh.js:433-448 | the plot, when it exists, records the reported image path and nothing else changes |
| Dynafresh.PlotManager.RecreateAll | public/dynafresh.js:399-406 | the loop opens one plot per entry with a non-empty path, under the consecutive fresh ids after the old allocator, updates the recent paths, and saves nothing |
| Dynafresh.PlotManager.RestoreSessionAsWritten | public/dynafresh.js:384-419 | returns true exactly when a non-empty list is stored, whether or not plots are already open; it then opens them all; a missing or empty session leaves `isRestoring` as it was, and every other exit leaves it false |
| Dynafresh.PlotManager.RestoreSession | public/dynafresh.js:384-419 | the corrected restore: only an empty manager restores, so the result is `RestoredOnce` and a reconnect opens nothing twice |
| DynafreshProperties.SessionEntriesListed | public/dynafresh.js:361-381 | the saved entries are exactly the plots in the visible order with a non-empty input, each saved with its input, and their ids appear in visible order |
| DynafreshProperties.SessionOfIgnoresUnlisted | public/dynafresh.js:366-376 | a plot without a container does not affect the saved session |
| DynafreshProperties.WatchedPathOpensOne | public/dynafresh.js:328-358 | a non-blank path no plot has loaded opens exactly one plot, under the next id, with the trimmed path as input, last in order, with one `watchFilepath` |
| DynafreshProperties.WatchedTwiceBeforeLoad | public/dynafresh.js:318-358 | watching the same path twice before the server answers opens two plots on it |
| DynafreshProperties.WatchedAfterLoad | public/dynafresh.js:318-345 | once the server has reported the trimmed path itself as a plot's image path, watching the path changes nothing |
| DynafreshProperties.Renumbered | public/dynafresh.js:399-406 | the renumbered list is no longer than the stored one |
| DynafreshProperties.RenumberedIds | public/dynafresh.js:402 | the restored plots are saved under consecutive ids from the allocator, with non-empty paths |
| DynafreshProperties.Paths | public/dynafresh.js:370-373 | proof helper for `SaveRestoreSave`: the `filepath` fields of a list of entries, position by position |
| DynafreshProperties.RestoredFresh | public/dynafresh.js:293 | a restore keeps every container's id below the allocator |
| DynafreshProperties.OpenedSession | public/dynafresh.js:348-350 | opening a plot with a non-empty input appends its entry, under the next id, to the saved session |
| DynafreshProperties.RestoreThenSave | public/dynafresh.js:384-419 | saving after a restore gives the session from before, followed by the restored entries under fresh consecutive ids; the allocator moves past them |
| DynafreshProperties.RestoreStep | public/dynafresh.js:399-406 | the inductive step of `RestoreThenSave` |
| DynafreshProperties.OpenedAfter | public/dynafresh.js:402-404 | opening a plot extends the renumbered part of the saved session by its entry |
| DynafreshProperties.RestoredLast | public/dynafresh.js:399-406 | one step of the restore loop: an entry with a path opens one plot, an entry without one opens nothing |
| DynafreshProperties.RenumberedLast | public/dynafresh.js:399-406 | one step of the renumbering: an entry with a path gets the next id, an entry without one is dropped |
| DynafreshProperties.RenumberedKeepsPaths | public/dynafresh.js:399-406 | renumbering keeps the paths of entries with non-empty paths, in order |
| DynafreshProperties.SaveRestoreSave | public/dynafresh.js:361-419 | saving, restoring into an empty manager and saving again stores the same paths in the same order, under ids counted from the manager's allocator |
| DynafreshProperties.RestoredGrows | public/dynafresh.js:399-406 | a restore opens nothing when no entry has a path, otherwise opens the plot under the old allocator; it never drops a plot or lowers the allocator |
| DynafreshProperties.ReconnectDuplicates | public/dynafresh.js:553-562 | restoring the session `[{plotId: 1, filepath: "/a.png"}]` on two connections opens plots 1 and 2 on the same path, while the guarded restore keeps only plot 1 |
| DynafreshProperties.RestoreOnceIdempotent | public/dyre.js:700-702 | the guarded restore is idempotent: a second connection restores nothing more |
| DynafreshProperties.RecentAfterBounded | public/dynafresh.js:468-477 | the recent paths a restore leaves stay free of duplicates and within 10 when they started so |

## Left out

- DOM and presentation: canvases, `Image` loading, Panzoom, the recent-paths dropdown and modal, `highlight`, CSS classes, `scrollIntoView` and the timers. These are browser UI. The plot's input field and its container are represented only by the `input` field (dynafresh) and the `order` sequence.
- Reordering containers by drag (Sortable) and the save after it is left out. The container order therefore always equals the insertion order of the `plots` Map. The model uses one `order` sequence for both, where the source iterates the Map everywhere but in `saveSession`, which walks the DOM.
- `timeAgo`, `updateTimeDisplay` and `clearRecentPaths` are left out. They depend on the clock and the dayjs library, or only clear storage.
- `validateFilepath` and the `filepathValidation` handler are left out. Their request ids use `Date.now()` and `Math.random()`.
- The server is not modelled: the image path it reports is a free parameter of `Dynafresh.PlotManager.ReceiveFilepath`. The server in `app.js` reports a served path (`images/<base name>`), not the typed source path. The premise of `DynafreshProperties.WatchedAfterLoad` therefore normally does not hold, and for a typed source path dynafresh's duplicate check normally never matches.
- The socket transport is left out. Sent messages are the `sent` log, and received `filepath`/`initialFilepath` messages are the `ReceiveFilepath` methods.
- The `connect` handlers are left out. In dyre the handler calls `restoreSession` and, when nothing was restored, `resubscribePlots`. In dynafresh it calls `restoreSession` and, when nothing was restored, pre-fills the main input.
- Plot ids are JavaScript numbers (doubles). The model's `int` ignores the loss of precision at 2^53, where `id + 1` and `nextPlotId++` stop increasing. From there on the allocator can hand out a live id a second time, which `TableValid` (every plot below `nextPlotId`) does not capture. Reaching that point takes a foreign stored session or 2^53 creations.
- The `openPlots` handler (a loop of `watchFilepath` then one save) is not modelled as a method of its own.
- `JSON.parse`/`stringify` and `safeParse` are left out. A stored session is `Missing`, `Corrupt` or the typed list. A dynafresh session that parses but has no `plots` array is treated like `Corrupt`, which also resets `isRestoring`, while the source leaves the flag as it was. The flag is false outside a restore anyway.
- Malformed stored entries are not modelled. These are non-string paths, and dynafresh entries that make the restore loop throw half-way. Stored entries are well-typed records.
- `Dyre.PlotManager.CreatePlot` with an explicit id that is already live replaces the table entry and keeps one container. The source's `new Plot(id)` would insert a second container with the same element id. Replay never does this on a consistent history.
- `Dyre.PlotManager.FindPlotByFilepath` and `Dyre.PlotManager.ResubscribePlots` walk the container order rather than the Map's insertion order. The two coincide while reordering is left out.
- `saveSession` parses container element ids back to numbers (`parseInt`). The model keeps the ids as integers throughout.
- The `plotManager` global that dynafresh's `watchFile` tests for null always exists in the model.
- `Dynafresh.AddRecentPath` takes `maxpaths` as a natural number. Negative or fractional caps given to `slice` are not modelled.
- `app.js` (static server and file watcher), `dyopen.js` and `plot.js` (command-line launchers), `old/dynafresh.js` (a polling refresher) and `random_plot.py` are not part of this model.

## Findings

| source | as written | input that shows it | evidently intended | confidence | as-written member | corrected member |
|---|---|---|---|---|---|---|
| public/dynafresh.js:384-419 | `restoreSession` has no check for plots already open, and the `connect` handler (public/dynafresh.js:553-562) calls it on every connection, reconnects included | stored session `[{plotId: 1, filepath: "/a.png"}]`; connect, then reconnect: the second restore opens plot 2 on "/a.png" beside plot 1 | restore only into an empty manager, as dyre's `restoreSession` does (public/dyre.js:700-702) | not executed | Dynafresh.PlotManager.RestoreSessionAsWritten, DynafreshProperties.ReconnectDuplicates | Dynafresh.PlotManager.RestoreSession, DynafreshProperties.RestoreOnceIdempotent |

/** The plot manager of the older dynafresh client (public/dynafresh.js): plots
    keyed by id with a monotone id allocator, a duplicate check on the path of
    the image each plot has loaded, session save/restore in visible order and
    the recent-paths list. There is no undo/redo. */
module Dynafresh {
  import opened Common
  import opened Strings
  import opened Lists
  import RecentPaths

  /** The default `maxpaths` of `addRecentPath`. */
  const MAX_PATHS: nat := 10

  /** `addRecentPath(filepath, maxpaths)`: drops earlier occurrences of the
      path, puts it first and keeps the first `maxpaths` entries. A blank path
      is stored like any other. */
  method AddRecentPath(storage: LocalStorage, filepath: Path, maxpaths: nat)
    modifies storage`recentPaths
    ensures storage.recentPaths == RecentPaths.MoveToFront(old(storage.recentPaths), filepath, maxpaths)
  {
    var recent := storage.recentPaths;
    recent := Without(recent, filepath);
    recent := [filepath] + recent;
    recent := Take(recent, maxpaths);
    storage.recentPaths := recent;
  }

  // ---------------------------------------------------------------------------
  // Plots and the plot table

  /** A plot: its id, the text of its path input, and the path of the image
      last loaded into it (`filepath`, null until the server reports one). */
  datatype Plot = Plot(plotId: PlotId, input: string, filepath: Option<Path>)

  /** The plots of a manager, their visible order (which is also the
      insertion order of the `plots` Map), the id allocator and the messages
      emitted on the socket so far. */
  datatype PlotTable = PlotTable(plots: map<PlotId, Plot>, order: seq<PlotId>, nextPlotId: int, sent: seq<Message>)

  /** Every plot is filed under its own id, below `nextPlotId`; the visible
      order lists every plot exactly once. */
  predicate TableValid(t: PlotTable)
  {
    && (forall id :: id in t.plots ==> t.plots[id].plotId == id && id < t.nextPlotId)
    && NoDuplicates(t.order)
    && (forall i :: 0 <= i < |t.order| ==> t.order[i] in t.plots)
    && (forall id :: id in t.plots ==> id in t.order)
  }

  /** Some plot has loaded the image of `filepath`. */
  predicate Loaded(plots: map<PlotId, Plot>, filepath: Path)
  {
    exists id :: id in plots && plots[id].filepath == Some(filepath)
  }

  /** The list `saveSession` stores: `{plotId, filepath: input}` for each
      container in visible order whose plot has a non-empty input. */
  function SessionOf(order: seq<PlotId>, plots: map<PlotId, Plot>): seq<SessionEntry>
  {
    if order == [] then []
    else
      var id := order[|order| - 1];
      SessionOf(order[..|order| - 1], plots)
        + (if id in plots && plots[id].input != "" then [SessionEntry(id, plots[id].input)] else [])
  }

  /** The messages `watchFile()` emits for a plot with the given input: one
      `watchFilepath` for the trimmed input unless it is blank. */
  function WatchesFor(id: PlotId, input: string): seq<Message>
  {
    if Trim(input) != "" then [Message.WatchFilepath(Trim(input), id)] else []
  }

  /** `createPlot(filepath)` on the table: a plot under the next id with an
      empty input and `loaded` as its image path, its container last. */
  function Created(t: PlotTable, loaded: Option<Path>): (r: PlotTable)
    ensures TableValid(t) ==> TableValid(r)
  {
    var id := t.nextPlotId;
    assert TableValid(t) ==> id !in t.order && NoDuplicates(t.order + [id]);
    PlotTable(t.plots[id := Plot(id, "", loaded)], t.order + [id], id + 1, t.sent)
  }

  /** `createPlot()`, then the new plot's input set to `input` and
      `watchFile()`: the plot takes the next id, its container goes last. */
  function Opened(t: PlotTable, input: string): (r: PlotTable)
    ensures TableValid(t) ==> TableValid(r)
  {
    var id := t.nextPlotId;
    assert TableValid(t) ==> id !in t.order && NoDuplicates(t.order + [id]);
    PlotTable(t.plots[id := Plot(id, input, None)], t.order + [id], id + 1, t.sent + WatchesFor(id, input))
  }

  /** `watchFilepath(filepath)` on the table: nothing for a blank path or a
      path whose image some plot has loaded; otherwise one new plot whose input
      is the trimmed path. */
  function WatchedPath(t: PlotTable, filepath: Path): (r: PlotTable)
    ensures TableValid(t) ==> TableValid(r)
  {
    var target := Trim(filepath);
    if target == "" || Loaded(t.plots, target) then t else Opened(t, target)
  }

  /** The table after `restoreSession()` has opened a plot for every entry
      with a non-empty filepath, in order, under fresh ids. */
  function Restored(t: PlotTable, entries: seq<SessionEntry>): (r: PlotTable)
    ensures TableValid(t) ==> TableValid(r)
    decreases |entries|
  {
    if entries == [] then t
    else
      var e := entries[|entries| - 1];
      var s := Restored(t, entries[..|entries| - 1]);
      if e.filepath != "" then Opened(s, e.filepath) else s
  }

  /** The recent-paths list after the restore's `watchFile()` calls: each
      entry with a non-empty filepath whose trimmed path is not blank moves to
      the front, in order. */
  function RecentAfter(recent: seq<Path>, entries: seq<SessionEntry>): seq<Path>
    decreases |entries|
  {
    if entries == [] then recent
    else
      var e := entries[|entries| - 1];
      var before := RecentAfter(recent, entries[..|entries| - 1]);
      if e.filepath != "" && Trim(e.filepath) != "" then RecentPaths.MoveToFront(before, Trim(e.filepath), MAX_PATHS)
      else before
  }

  /** The `filepath` / `initialFilepath` message: the plot, when it exists,
      records the reported image path. */
  function Received(t: PlotTable, id: PlotId, filepath: Option<Path>): (r: PlotTable)
    ensures TableValid(t) ==> TableValid(r)
  {
    if id in t.plots then t.(plots := t.plots[id := t.plots[id].(filepath := filepath)]) else t
  }

  /** `plot.remove()` on the table: an `unwatch` for the loaded image path,
      when there is one, and the plot and its container gone. */
  function Closed(t: PlotTable, p: Plot): (r: PlotTable)
    ensures TableValid(t) ==> TableValid(r)
    ensures r.plots == t.plots - {p.plotId} && r.nextPlotId == t.nextPlotId
  {
    var order := Without(t.order, p.plotId);
    assert NoDuplicates(t.order) ==> NoDuplicates(order) by {
      if NoDuplicates(t.order) {
        SubsequenceNoDuplicates(order, t.order);
      }
    }
    assert (forall i :: 0 <= i < |t.order| ==> t.order[i] in t.plots) ==>
      forall i :: 0 <= i < |order| ==> order[i] in t.plots - {p.plotId}
    by {
      forall i | 0 <= i < |order| && (forall k :: 0 <= k < |t.order| ==> t.order[k] in t.plots)
        ensures order[i] in t.plots - {p.plotId}
      {
        assert order[i] in order;
      }
    }
    PlotTable(t.plots - {p.plotId}, order, t.nextPlotId,
              t.sent + (if p.filepath.Some? && p.filepath.value != "" then [Unwatch(p.filepath.value, p.plotId)] else []))
  }

  // ---------------------------------------------------------------------------
  // The manager

  class PlotManager {
    var plots: map<PlotId, Plot>
    var order: seq<PlotId>
    var nextPlotId: int
    var isRestoring: bool
    var sent: seq<Message>
    /** Every id this manager has handed out. */
    ghost var issued: set<PlotId>
    const storage: LocalStorage

    function Table(): PlotTable
      reads this`plots, this`order, this`nextPlotId, this`sent
    {
      PlotTable(plots, order, nextPlotId, sent)
    }

    /** The table is consistent, and every id handed out, live or not, lies
        below the allocator. */
    ghost predicate Valid()
      reads this`plots, this`order, this`nextPlotId, this`sent, this`issued
    {
      && TableValid(Table())
      && plots.Keys <= issued
      && (forall id :: id in issued ==> id < nextPlotId)
    }

    constructor (storage: LocalStorage)
      ensures Valid() && this.storage == storage
      ensures plots == map[] && order == [] && nextPlotId == 1 && sent == []
      ensures !isRestoring && issued == {}
    {
      plots := map[];
      order := [];
      nextPlotId := 1;
      isRestoring := false;
      sent := [];
      issued := {};
      this.storage := storage;
    }

    /** Stores `{plotId, filepath}` of every plot with a non-empty input, in
        visible order. */
    method SaveSession()
      modifies storage`dynafreshSession
      ensures storage.dynafreshSession == Stored(SessionOf(order, plots))
    {
      storage.dynafreshSession := Stored(SessionOf(order, plots));
    }

    /** `createPlot(filepath)`: a plot under the next id, never handed out
        before, with an empty input; a non-null `filepath` is loaded into it.
        The session is saved unless the manager is restoring. */
    method CreatePlot(filepath: Option<Path>) returns (id: PlotId)
      requires Valid()
      modifies this`plots, this`order, this`nextPlotId, this`issued, storage`dynafreshSession
      ensures Valid()
      ensures id == old(nextPlotId) && id !in old(issued) && issued == old(issued) + {id} && nextPlotId == id + 1
      ensures plots == old(plots)[id := Plot(id, "", if filepath.Some? && filepath.value != "" then filepath else None)]
      ensures order == old(order) + [id]
      ensures isRestoring ==> storage.dynafreshSession == old(storage.dynafreshSession)
      ensures !isRestoring ==> storage.dynafreshSession == Stored(SessionOf(order, plots))
    {
      id := nextPlotId;
      var loaded := if filepath.Some? && filepath.value != "" then filepath else None;
      ghost var after := Created(Table(), loaded);
      nextPlotId := nextPlotId + 1;
      issued := issued + {id};
      order := order + [id];
      plots := plots[id := Plot(id, "", loaded)];
      assert Table() == after;
      assert Valid();
      if !isRestoring {
        SaveSession();
      }
    }

    /** `removePlot(plotId)`, together with the removal of the plot's
        container that `plot.remove()` does first; the session is always
        saved. */
    method RemovePlot(plotId: PlotId)
      requires Valid()
      modifies this`plots, this`order, storage`dynafreshSession
      ensures Valid()
      ensures plots == old(plots) - {plotId} && order == Without(old(order), plotId)
      ensures storage.dynafreshSession == Stored(SessionOf(order, plots))
    {
      ghost var after := Closed(Table(), Plot(plotId, "", None));
      order := Without(order, plotId);
      plots := plots - {plotId};
      assert TableValid(after) && Table() == after;
      SaveSession();
    }

    /** `plot.remove()`: emits `unwatch` for the loaded image path, when there
        is one, then removes the plot. */
    method ClosePlot(plot: Plot)
      requires Valid()
      requires plot.plotId in plots ==> plots[plot.plotId] == plot
      modifies this`plots, this`order, this`sent, storage`dynafreshSession
      ensures Valid()
      ensures Table() == Closed(old(Table()), plot)
      ensures storage.dynafreshSession == Stored(SessionOf(order, plots))
    {
      if plot.filepath.Some? && plot.filepath.value != "" {
        sent := sent + [Unwatch(plot.filepath.value, plot.plotId)];
      }
      RemovePlot(plot.plotId);
    }

    /** `plot.watchFile()`: for a non-blank trimmed input, the path becomes the
        most recent one, `watchFilepath` is emitted and, unless the manager is
        restoring, the session is saved. The plot itself is not changed. */
    method WatchFile(plotId: PlotId)
      requires Valid() && plotId in plots
      modifies this`sent, storage`recentPaths, storage`dynafreshSession
      ensures Valid()
      ensures sent == old(sent) + WatchesFor(plotId, plots[plotId].input)
      ensures var target := Trim(plots[plotId].input);
        && (target == "" ==> storage.recentPaths == old(storage.recentPaths))
        && (target != "" ==> storage.recentPaths == RecentPaths.MoveToFront(old(storage.recentPaths), target, MAX_PATHS))
        && (target == "" || isRestoring ==> storage.dynafreshSession == old(storage.dynafreshSession))
        && (target != "" && !isRestoring ==> storage.dynafreshSession == Stored(SessionOf(order, plots)))
    {
      var value := Trim(plots[plotId].input);
      if value != "" {
        AddRecentPath(storage, value, MAX_PATHS);
        sent := sent + [Message.WatchFilepath(value, plotId)];
        if !isRestoring {
          SaveSession();
        }
      }
    }

    /** The input's `change` handler: the typed text replaces the input, then
        `watchFile()`. */
    method EditInput(plotId: PlotId, value: string)
      requires Valid() && plotId in plots
      modifies this`plots, this`sent, storage`recentPaths, storage`dynafreshSession
      ensures Valid()
      ensures plots == old(plots)[plotId := old(plots)[plotId].(input := value)]
      ensures sent == old(sent) + WatchesFor(plotId, value)
      ensures Trim(value) == "" ==> storage.recentPaths == old(storage.recentPaths)
      ensures Trim(value) != "" ==>
        storage.recentPaths == RecentPaths.MoveToFront(old(storage.recentPaths), Trim(value), MAX_PATHS)
      ensures Trim(value) == "" || isRestoring ==> storage.dynafreshSession == old(storage.dynafreshSession)
      ensures Trim(value) != "" && !isRestoring ==> storage.dynafreshSession == Stored(SessionOf(order, plots))
    {
      plots := plots[plotId := plots[plotId].(input := value)];
      WatchFile(plotId);
    }

    /** `findPlotByFilepath(filepath)`: the first plot, in Map order, whose
        loaded image path is exactly `filepath`; none when no plot has it. */
    method FindPlotByFilepath(filepath: Path) returns (r: Option<Plot>)
      requires Valid()
      ensures r.Some? ==>
        r.value.plotId in plots && plots[r.value.plotId] == r.value && r.value.filepath == Some(filepath)
      ensures r.None? <==> !Loaded(plots, filepath)
      ensures r.Some? ==> forall j :: 0 <= j < |order| && order[j] == r.value.plotId ==>
        forall i :: 0 <= i < j ==> plots[order[i]].filepath != Some(filepath)
    {
      var i := 0;
      while i < |order|
        invariant 0 <= i <= |order|
        invariant forall k :: 0 <= k < i ==> plots[order[k]].filepath != Some(filepath)
      {
        var plot := plots[order[i]];
        assert plot.plotId == order[i];
        if plot.filepath == Some(filepath) {
          return Some(plot);
        }
        i := i + 1;
      }
      forall id | id in plots ensures plots[id].filepath != Some(filepath) {
        var j :| 0 <= j < |order| && order[j] == id;
      }
      return None;
    }

    /** `watchFilepath(filepath)`: returns the plot that has loaded the trimmed
        path, or opens a new plot on it; a blank path does nothing. */
    method WatchFilepath(filepath: Path) returns (r: Option<PlotId>)
      requires Valid()
      modifies this`plots, this`order, this`nextPlotId, this`sent, this`issued, storage`recentPaths, storage`dynafreshSession
      ensures Valid()
      ensures Table() == WatchedPath(old(Table()), filepath)
      ensures r.None? <==> Trim(filepath) == ""
      ensures r.Some? ==> r.value in plots
      ensures r.Some? && Loaded(old(plots), Trim(filepath)) ==> plots[r.value].filepath == Some(Trim(filepath))
      ensures r.None? || Loaded(old(plots), Trim(filepath)) ==>
        && issued == old(issued) && storage.recentPaths == old(storage.recentPaths)
        && storage.dynafreshSession == old(storage.dynafreshSession)
      ensures r.Some? && !Loaded(old(plots), Trim(filepath)) ==>
        && r.value == old(nextPlotId) && r.value !in old(issued) && issued == old(issued) + {r.value}
        && storage.recentPaths == RecentPaths.MoveToFront(old(storage.recentPaths), Trim(filepath), MAX_PATHS)
        && storage.dynafreshSession == (if isRestoring then old(storage.dynafreshSession) else Stored(SessionOf(order, plots)))
    {
      var target := Trim(filepath);
      if target == "" {
        return None;
      }
      var existing := FindPlotByFilepath(target);
      if existing.Some? {
        return Some(existing.value.plotId);
      }
      TrimIsTrimmed(target);
      var id := OpenPlot(target);
      r := Some(id);
    }

    /** `createPlot()`, the new plot's input set to `input`, then
        `watchFile()`. Both callers pass a non-blank path or run during a
        restore, so the session `createPlot()` saves is always the one
        `watchFile()` saves after it. */
    method OpenPlot(input: string) returns (id: PlotId)
      requires Valid()
      requires isRestoring || Trim(input) != ""
      modifies this`plots, this`order, this`nextPlotId, this`sent, this`issued, storage`recentPaths, storage`dynafreshSession
      ensures Valid()
      ensures id == old(nextPlotId) && id !in old(issued) && issued == old(issued) + {id}
      ensures Table() == Opened(old(Table()), input)
      ensures Trim(input) == "" ==> storage.recentPaths == old(storage.recentPaths)
      ensures Trim(input) != "" ==>
        storage.recentPaths == RecentPaths.MoveToFront(old(storage.recentPaths), Trim(input), MAX_PATHS)
      ensures isRestoring ==> storage.dynafreshSession == old(storage.dynafreshSession)
      ensures !isRestoring ==> storage.dynafreshSession == Stored(SessionOf(order, plots))
    {
      ghost var after := Opened(Table(), input);
      id := nextPlotId;
      nextPlotId := nextPlotId + 1;
      issued := issued + {id};
      order := order + [id];
      plots := plots[id := Plot(id, input, None)];
      var value := Trim(input);
      if value != "" {
        AddRecentPath(storage, value, MAX_PATHS);
        sent := sent + [Message.WatchFilepath(value, id)];
      }
      assert Table() == after;
      assert Valid();
      if !isRestoring {
        SaveSession();
      }
    }

    /** The `filepath` / `initialFilepath` handler: `loadImage(filepath)` on
        the plot, when it exists. */
    method ReceiveFilepath(plotId: PlotId, filepath: Option<Path>)
      requires Valid()
      modifies this`plots
      ensures Valid()
      ensures Table() == Received(old(Table()), plotId, filepath)
    {
      if plotId in plots {
        plots := plots[plotId := plots[plotId].(filepath := filepath)];
      }
    }

    /** Opens a plot, with a fresh id, for every entry with a non-empty
        filepath, while the manager is restoring. */
    method RecreateAll(entries: seq<SessionEntry>)
      requires Valid() && isRestoring
      modifies this`plots, this`order, this`nextPlotId, this`sent, this`issued, storage`recentPaths, storage`dynafreshSession
      ensures Valid()
      ensures Table() == Restored(old(Table()), entries)
      ensures old(nextPlotId) <= nextPlotId
      ensures forall id :: id in issued <==> id in old(issued) || old(nextPlotId) <= id < nextPlotId
      ensures storage.recentPaths == RecentAfter(old(storage.recentPaths), entries)
      ensures storage.dynafreshSession == old(storage.dynafreshSession)
    {
      var i := 0;
      while i < |entries|
        invariant 0 <= i <= |entries|
        invariant Valid() && isRestoring
        invariant Table() == Restored(old(Table()), entries[..i])
        invariant old(nextPlotId) <= nextPlotId
        invariant forall id :: id in issued <==> id in old(issued) || old(nextPlotId) <= id < nextPlotId
        invariant storage.recentPaths == RecentAfter(old(storage.recentPaths), entries[..i])
        invariant storage.dynafreshSession == old(storage.dynafreshSession)
      {
        var entry := entries[i];
        assert entries[..i + 1][..i] == entries[..i];
        if entry.filepath != "" {
          var _ := OpenPlot(entry.filepath);
        }
        i := i + 1;
      }
      assert entries[..i] == entries;
    }

    /** `restoreSession()` as the source has it: with no guard on plots
        already present, it opens every stored plot again. */
    method RestoreSessionAsWritten() returns (restored: bool)
      requires Valid()
      modifies this`plots, this`order, this`nextPlotId, this`sent, this`isRestoring, this`issued, storage`recentPaths, storage`dynafreshSession
      ensures Valid()
      ensures restored <==> old(storage.dynafreshSession).Stored? && old(storage.dynafreshSession).plots != []
      ensures old(storage.dynafreshSession).Missing? || old(storage.dynafreshSession) == Stored([]) ==>
        isRestoring == old(isRestoring)
      ensures !(old(storage.dynafreshSession).Missing? || old(storage.dynafreshSession) == Stored([])) ==> !isRestoring
      ensures !restored ==>
        Table() == old(Table()) && issued == old(issued) && storage.recentPaths == old(storage.recentPaths)
      ensures restored ==>
        && Table() == Restored(old(Table()), old(storage.dynafreshSession).plots)
        && storage.recentPaths == RecentAfter(old(storage.recentPaths), old(storage.dynafreshSession).plots)
      ensures storage.dynafreshSession == old(storage.dynafreshSession)
    {
      var session := storage.dynafreshSession;
      if session.Missing? {
        return false;
      }
      if session.Corrupt? {
        isRestoring := false;
        return false;
      }
      if session.plots == [] {
        return false;
      }
      isRestoring := true;
      RecreateAll(session.plots);
      isRestoring := false;
      return true;
    }

    /** `restoreSession()` with the guard the source evidently intends: a
        manager that already holds plots restores nothing, so a reconnect
        does not open the stored plots a second time. */
    method RestoreSession() returns (restored: bool)
      requires Valid()
      modifies this`plots, this`order, this`nextPlotId, this`sent, this`isRestoring, this`issued, storage`recentPaths, storage`dynafreshSession
      ensures Valid()
      ensures restored <==>
        old(plots) == map[] && old(storage.dynafreshSession).Stored? && old(storage.dynafreshSession).plots != []
      ensures old(plots) != map[] || old(storage.dynafreshSession).Missing? || old(storage.dynafreshSession) == Stored([]) ==>
        isRestoring == old(isRestoring)
      ensures !(old(plots) != map[] || old(storage.dynafreshSession).Missing? || old(storage.dynafreshSession) == Stored([])) ==>
        !isRestoring
      ensures Table() == RestoredOnce(old(Table()), old(storage.dynafreshSession))
      ensures !restored ==> issued == old(issued) && storage.recentPaths == old(storage.recentPaths)
      ensures restored ==>
        storage.recentPaths == RecentAfter(old(storage.recentPaths), old(storage.dynafreshSession).plots)
      ensures storage.dynafreshSession == old(storage.dynafreshSession)
    {
      if plots != map[] {
        return false;
      }
      restored := RestoreSessionAsWritten();
    }
  }

  /** The table the guarded restore leaves: the stored plots opened on an
      empty manager holding a non-empty stored list, the table unchanged
      otherwise. */
  function RestoredOnce(t: PlotTable, stored: StoredSession): PlotTable
  {
    if t.plots == map[] && stored.Stored? && stored.plots != [] then Restored(t, stored.plots) else t
  }
}

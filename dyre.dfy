/** The plot manager of the dyre client (public/dyre.js): a table of plots keyed
    by id, an id allocator, a linear undo/redo log of commands, session
    save/restore and the recent-paths list. Plots are records kept in the
    manager's table; the methods the source puts on a `Plot` object take the
    plot's id or record. */
module Dyre {
  import opened Common
  import opened Strings
  import opened Lists
  import RecentPaths

  const MAX_RECENT_PATHS: nat := 10

  // ---------------------------------------------------------------------------
  // filenameFromPath

  predicate IsSeparator(c: char)
  {
    c == '/' || c == '\\'
  }

  /** `s.lastIndexOf(c)`: the last position holding `c`, or -1. */
  function LastIndexOf(s: string, c: char): (k: int)
    ensures -1 <= k < |s|
    ensures k >= 0 ==> s[k] == c
    ensures forall i :: k < i < |s| ==> s[i] != c
  {
    if s == [] then -1
    else if s[|s| - 1] == c then |s| - 1
    else LastIndexOf(s[..|s| - 1], c)
  }

  /** The last path component: everything after the last `/` or `\`, the whole
      path when it has no separator, and "" for an empty (or null) path. */
  function FilenameFromPath(filepath: Path): (r: string)
    ensures filepath == "" ==> r == ""
    ensures (forall i :: 0 <= i < |filepath| ==> !IsSeparator(filepath[i])) ==> r == filepath
    ensures |r| <= |filepath| && r == filepath[|filepath| - |r|..]
    ensures forall i :: 0 <= i < |r| ==> !IsSeparator(r[i])
    ensures |r| < |filepath| ==> IsSeparator(filepath[|filepath| - |r| - 1])
  {
    if filepath == "" then ""
    else
      var k := Max(LastIndexOf(filepath, '/'), LastIndexOf(filepath, '\\'));
      if k == -1 then filepath else filepath[k + 1..]
  }

  // ---------------------------------------------------------------------------
  // Recent paths (localStorage key `recentPaths`)

  /** Stores at most `MAX_RECENT_PATHS` of `paths`. */
  method SetRecentPaths(storage: LocalStorage, paths: seq<Path>)
    modifies storage`recentPaths
    ensures storage.recentPaths == Take(paths, MAX_RECENT_PATHS)
  {
    storage.recentPaths := Take(paths, MAX_RECENT_PATHS);
  }

  /** Moves `filepath` to the front of the stored list; an empty path is ignored. */
  method AddRecentPath(storage: LocalStorage, filepath: Path)
    modifies storage`recentPaths
    ensures filepath == "" ==> storage.recentPaths == old(storage.recentPaths)
    ensures filepath != "" ==>
      storage.recentPaths == RecentPaths.MoveToFront(old(storage.recentPaths), filepath, MAX_RECENT_PATHS)
  {
    if filepath == "" {
      return;
    }
    var recent := Without(storage.recentPaths, filepath);
    recent := [filepath] + recent;
    SetRecentPaths(storage, recent);
  }

  // ---------------------------------------------------------------------------
  // Plots, commands and the plot table

  /** A plot view: its id and the source path it watches ("" when unbound). */
  datatype Plot = Plot(plotId: PlotId, fullFilepath: Path)

  /** One undo/redo entry; each carries what replaying and inverting it needs. */
  datatype Command =
    | Create(plotId: PlotId, filepath: Path)
    | Remove(plotId: PlotId, filepath: Path)
    | ClearAll(plots: seq<SessionEntry>)
    | ChangeFilepath(plotId: PlotId, oldFilepath: Path, newFilepath: Path)

  /** The plots of a manager (`plots`), their visible order (the order of the
      plot containers, which is also the insertion order of the `plots` Map),
      the id allocator and the messages emitted on the socket so far. */
  datatype PlotTable = PlotTable(plots: map<PlotId, Plot>, order: seq<PlotId>, nextPlotId: int, sent: seq<Message>)

  /** Every plot is filed under its own id, below `nextPlotId`, and bound to a
      trimmed path; the visible order lists every plot exactly once. */
  predicate TableValid(t: PlotTable)
  {
    && (forall id :: id in t.plots ==>
          t.plots[id].plotId == id && id < t.nextPlotId && IsTrimmed(t.plots[id].fullFilepath))
    && NoDuplicates(t.order)
    && AllListed(t.order, t.plots)
    && (forall id :: id in t.plots ==> id in t.order)
  }

  /** Every id of `order` has an entry in `plots`. */
  predicate AllListed(order: seq<PlotId>, plots: map<PlotId, Plot>)
  {
    forall i :: 0 <= i < |order| ==> order[i] in plots
  }

  /** `{plotId, filepath}` for each plot in visible order: the snapshot a
      clear-all records. */
  function Snapshot(order: seq<PlotId>, plots: map<PlotId, Plot>): (r: seq<SessionEntry>)
    requires AllListed(order, plots)
    ensures |r| == |order|
  {
    if order == [] then []
    else
      var id := order[|order| - 1];
      Snapshot(order[..|order| - 1], plots) + [SessionEntry(id, plots[id].fullFilepath)]
  }

  /** Entry `i` of the snapshot is the id and path of the `i`-th plot in
      visible order. */
  lemma {:induction false} SnapshotEntries(order: seq<PlotId>, plots: map<PlotId, Plot>)
    requires AllListed(order, plots)
    ensures forall i :: 0 <= i < |order| ==>
      Snapshot(order, plots)[i] == SessionEntry(order[i], plots[order[i]].fullFilepath)
  {
    if order != [] {
      SnapshotEntries(order[..|order| - 1], plots);
    }
  }

  function Bound(entries: seq<SessionEntry>): seq<SessionEntry>
  {
    if entries == [] then []
    else
      var e := entries[|entries| - 1];
      Bound(entries[..|entries| - 1]) + (if e.filepath != "" then [e] else [])
  }

  /** `Bound` keeps exactly the entries with a non-empty path, in their order. */
  lemma {:induction false} BoundKeepsBoundEntries(entries: seq<SessionEntry>)
    ensures forall e :: e in Bound(entries) <==> e in entries && e.filepath != ""
    ensures IsSubsequence(Bound(entries), entries)
  {
    if entries != [] {
      var e := entries[|entries| - 1];
      var init := entries[..|entries| - 1];
      BoundKeepsBoundEntries(init);
      SubsequenceAppend(Bound(init), init, e);
      assert entries == init + [e];
      if e.filepath != "" {
        assert Bound(entries) == Bound(init) + [e];
      } else {
        assert Bound(entries) == Bound(init);
      }
      forall x ensures x in Bound(entries) <==> x in entries && x.filepath != "" {
        assert x in entries <==> x in init || x == e;
      }
    }
  }

  /** The list `saveSession` stores: for each container in visible order
      whose id has a live plot bound to a non-empty path, that plot's
      `{plotId, filepath}`. */
  function SessionOf(order: seq<PlotId>, plots: map<PlotId, Plot>): seq<SessionEntry>
  {
    if order == [] then []
    else
      var id := order[|order| - 1];
      SessionOf(order[..|order| - 1], plots)
        + (if id in plots && plots[id].fullFilepath != "" then [SessionEntry(id, plots[id].fullFilepath)] else [])
  }

  /** On a consistent table the saved session is the clear-all snapshot with
      the unbound plots dropped. */
  lemma {:induction false} SessionIsBoundSnapshot(order: seq<PlotId>, plots: map<PlotId, Plot>)
    requires AllListed(order, plots)
    ensures SessionOf(order, plots) == Bound(Snapshot(order, plots))
  {
    if order != [] {
      var init := order[..|order| - 1];
      assert AllListed(init, plots);
      SessionIsBoundSnapshot(init, plots);
      var id := order[|order| - 1];
      assert Snapshot(order, plots) == Snapshot(init, plots) + [SessionEntry(id, plots[id].fullFilepath)];
      assert Snapshot(order, plots)[..|order| - 1] == Snapshot(init, plots);
    }
  }

  /** The plot records in visible order (`Array.from(plots.values())`). */
  function Listed(order: seq<PlotId>, plots: map<PlotId, Plot>): (r: seq<Plot>)
    requires AllListed(order, plots)
    ensures |r| == |order|
    ensures forall i :: 0 <= i < |order| ==> r[i] == plots[order[i]]
  {
    if order == [] then []
    else Listed(order[..|order| - 1], plots) + [plots[order[|order| - 1]]]
  }

  /** Every record of `ps` whose id is registered is the live plot under that
      id, as the objects `plot.remove()` is called on are. */
  predicate AreLive(ps: seq<Plot>, plots: map<PlotId, Plot>)
  {
    forall p :: p in ps && p.plotId in plots ==> plots[p.plotId] == p
  }

  /** Each listed record is the live plot registered under its own id. */
  lemma ListedLive(order: seq<PlotId>, plots: map<PlotId, Plot>)
    requires AllListed(order, plots)
    requires forall id :: id in plots ==> plots[id].plotId == id
    ensures AreLive(Listed(order, plots), plots)
  {
    var r := Listed(order, plots);
    forall p | p in r && p.plotId in plots ensures plots[p.plotId] == p {
      var i :| 0 <= i < |r| && r[i] == p;
      assert r[i] == plots[order[i]] && order[i] in plots;
      assert plots[order[i]].plotId == order[i];
    }
  }

  /** The `i`-th record of a live list is the registered plot, if any. */
  lemma LiveMember(ps: seq<Plot>, plots: map<PlotId, Plot>, i: nat)
    requires AreLive(ps, plots) && i < |ps|
    ensures ps[i].plotId in plots ==> plots[ps[i].plotId] == ps[i]
  {
    assert ps[i] in ps;
  }

  /** Removing one plot leaves every other record as live as it was. */
  lemma ClosedKeepsLive(t: PlotTable, p: Plot, ps: seq<Plot>)
    requires AreLive(ps, t.plots)
    ensures AreLive(ps, Closed(t, p).plots)
  {
  }

  /** `entries.map(({plotId}) => plots.get(plotId)).filter(Boolean)`. */
  function Present(entries: seq<SessionEntry>, plots: map<PlotId, Plot>): (r: seq<Plot>)
    ensures |r| <= |entries|
    ensures forall p :: p in r ==> exists e :: e in entries && e.plotId in plots && p == plots[e.plotId]
    ensures forall e :: e in entries && e.plotId in plots ==> plots[e.plotId] in r
    ensures (forall e :: e in entries ==> e.plotId in plots) ==>
      |r| == |entries| && forall i :: 0 <= i < |r| ==> r[i] == plots[entries[i].plotId]
  {
    if entries == [] then []
    else
      var e := entries[|entries| - 1];
      var init := Present(entries[..|entries| - 1], plots);
      assert entries == entries[..|entries| - 1] + [e];
      assert e in entries && forall x :: x in entries[..|entries| - 1] ==> x in entries;
      if e.plotId in plots then init + [plots[e.plotId]] else init
  }

  /** The `unwatch` messages removing the given plots emits: one per entry with
      a non-empty path. */
  function Unwatches(entries: seq<SessionEntry>): seq<Message>
  {
    if entries == [] then []
    else
      var e := entries[|entries| - 1];
      Unwatches(entries[..|entries| - 1])
        + (if e.filepath != "" then [Unwatch(e.filepath, e.plotId)] else [])
  }

  /** The `watchFilepath` messages re-subscribing the given plots emits: one per
      entry with a non-empty path. */
  function Watches(entries: seq<SessionEntry>): seq<Message>
  {
    if entries == [] then []
    else
      var e := entries[|entries| - 1];
      Watches(entries[..|entries| - 1])
        + (if e.filepath != "" then [Message.WatchFilepath(e.filepath, e.plotId)] else [])
  }

  /** The table right after `new Plot(id)` is registered: the entry without a
      path, its container last if the id is new, the allocator past `id`. */
  function Registered(t: PlotTable, id: PlotId): (r: PlotTable)
    ensures TableValid(t) ==> TableValid(r)
    ensures id in r.plots
  {
    var r := PlotTable(t.plots[id := Plot(id, "")], if id in t.plots then t.order else t.order + [id],
                       Max(t.nextPlotId, id + 1), t.sent);
    assert TableValid(t) && id !in t.plots ==> NoDuplicates(t.order + [id]);
    r
  }

  /** `createPlot(filepath, {plotId: id})` on the table: `new Plot(id)`, then
      `watchFile(filepath)` without history or save. */
  function CreatedAt(t: PlotTable, id: PlotId, filepath: Path): (r: PlotTable)
    ensures TableValid(t) ==> TableValid(r)
  {
    Rebound(Registered(t, id), id, filepath, false)
  }

  /** What `createPlot` leaves: the entry for `id` bound to the trimmed path
      (replacing any earlier entry), every other entry as it was, the
      container last unless the id was taken, the allocator past `id`, and one
      `watchFilepath` message exactly when the trimmed path is non-empty. */
  lemma CreatedAtEffect(t: PlotTable, id: PlotId, filepath: Path)
    ensures var r := CreatedAt(t, id, filepath);
      && r.plots == t.plots[id := Plot(id, Trim(filepath))]
      && r.order == (if id in t.plots then t.order else t.order + [id])
      && r.nextPlotId == Max(t.nextPlotId, id + 1)
      && r.sent == t.sent + (if Trim(filepath) != "" then [Message.WatchFilepath(Trim(filepath), id)] else [])
  {
    var u := Registered(t, id);
    var target := Trim(filepath);
    if target == "" {
      assert u.plots == t.plots[id := Plot(id, target)];
    }
  }

  /** `plot.remove()` on the table: an `unwatch` for a bound plot, its
      container and its entry gone. */
  function Closed(t: PlotTable, p: Plot): (r: PlotTable)
    ensures TableValid(t) ==> TableValid(r)
    ensures r.plots.Keys == t.plots.Keys - {p.plotId} && r.nextPlotId == t.nextPlotId
    ensures forall id :: id in r.plots ==> r.plots[id] == t.plots[id]
  {
    var order := Without(t.order, p.plotId);
    assert NoDuplicates(t.order) ==> NoDuplicates(order) by {
      if NoDuplicates(t.order) {
        SubsequenceNoDuplicates(order, t.order);
      }
    }
    assert AllListed(t.order, t.plots) ==> AllListed(order, t.plots - {p.plotId}) by {
      if AllListed(t.order, t.plots) {
        forall i | 0 <= i < |order| ensures order[i] in t.plots - {p.plotId} {
          assert order[i] in order;
        }
      }
    }
    PlotTable(t.plots - {p.plotId}, order, t.nextPlotId,
              t.sent + (if p.fullFilepath != "" then [Unwatch(p.fullFilepath, p.plotId)] else []))
  }

  /** `plot.watchFile(filepath, {force})` on the table: nothing for a blank
      path, nothing for the plot's own path unless forced; otherwise the plot
      is bound to the trimmed path and `watchFilepath` is emitted. */
  function Rebound(t: PlotTable, id: PlotId, filepath: Path, force: bool): (r: PlotTable)
    requires id in t.plots
    ensures TableValid(t) ==> TableValid(r)
    ensures r.plots.Keys == t.plots.Keys
  {
    var target := Trim(filepath);
    if target == "" || (target == t.plots[id].fullFilepath && !force) then t
    else PlotTable(t.plots[id := Plot(id, target)], t.order, t.nextPlotId, t.sent + [Message.WatchFilepath(target, id)])
  }

  /** The table after `createPlot(filepath, {plotId})` for every entry whose
      filepath is non-empty, in order (undoing a clear-all, restoring a session). */
  function Recreated(t: PlotTable, entries: seq<SessionEntry>): (r: PlotTable)
    ensures TableValid(t) ==> TableValid(r)
    ensures r.nextPlotId >= t.nextPlotId
    decreases |entries|
  {
    if entries == [] then t
    else
      var e := entries[|entries| - 1];
      var s := Recreated(t, entries[..|entries| - 1]);
      assert entries == entries[..|entries| - 1] + [e];
      if e.filepath != "" then CreatedAt(s, e.plotId, e.filepath) else s
  }

  /** The table after `plot.remove()` for each of the given plot records, in order. */
  function ClosedAll(t: PlotTable, ps: seq<Plot>): (r: PlotTable)
    ensures TableValid(t) ==> TableValid(r)
    ensures r.nextPlotId == t.nextPlotId
    ensures r.plots.Keys == t.plots.Keys - (set p | p in ps :: p.plotId)
    decreases |ps|
  {
    if ps == [] then t
    else
      var p := ps[|ps| - 1];
      assert ps == ps[..|ps| - 1] + [p];
      Closed(ClosedAll(t, ps[..|ps| - 1]), p)
  }

  /** A forced `watchFile` of a plot on its own (trimmed) path changes no
      entry and only re-emits its `watchFilepath`. */
  lemma ReboundOwnPath(t: PlotTable, id: PlotId)
    requires TableValid(t) && id in t.plots && t.plots[id].fullFilepath != ""
    ensures Rebound(t, id, t.plots[id].fullFilepath, true)
      == t.(sent := t.sent + [Message.WatchFilepath(t.plots[id].fullFilepath, id)])
  {
    TrimIsTrimmed(t.plots[id].fullFilepath);
    assert t.plots[id := t.plots[id]] == t.plots;
  }

  /** The re-subscription messages for the first `i + 1` containers extend
      those for the first `i` by the message for container `i` when it holds a
      bound plot, and by nothing otherwise. */
  lemma WatchesStep(order: seq<PlotId>, plots: map<PlotId, Plot>, i: nat)
    requires i < |order|
    ensures order[i] in plots && plots[order[i]].fullFilepath != "" ==>
      Watches(SessionOf(order[..i + 1], plots))
        == Watches(SessionOf(order[..i], plots)) + [Message.WatchFilepath(plots[order[i]].fullFilepath, order[i])]
    ensures !(order[i] in plots && plots[order[i]].fullFilepath != "") ==>
      Watches(SessionOf(order[..i + 1], plots)) == Watches(SessionOf(order[..i], plots))
  {
    assert order[..i + 1][..i] == order[..i];
    var before := SessionOf(order[..i], plots);
    if order[i] in plots && plots[order[i]].fullFilepath != "" {
      var e := SessionEntry(order[i], plots[order[i]].fullFilepath);
      assert SessionOf(order[..i + 1], plots) == before + [e];
      assert (before + [e])[..|before|] == before;
    } else {
      assert SessionOf(order[..i + 1], plots) == before;
    }
  }

  /** What undoing `c` does to the table. */
  function Undone(t: PlotTable, c: Command): (r: PlotTable)
    ensures TableValid(t) ==> TableValid(r)
  {
    match c
    case Create(id, _) => if id in t.plots then Closed(t, t.plots[id]) else t
    case Remove(id, filepath) => CreatedAt(t, id, filepath)
    case ClearAll(entries) => Recreated(t, entries)
    case ChangeFilepath(id, oldFilepath, _) => if id in t.plots then Rebound(t, id, oldFilepath, false) else t
  }

  /** What redoing `c` does to the table. */
  function Redone(t: PlotTable, c: Command): (r: PlotTable)
    ensures TableValid(t) ==> TableValid(r)
  {
    match c
    case Create(id, filepath) => CreatedAt(t, id, filepath)
    case Remove(id, _) => if id in t.plots then Closed(t, t.plots[id]) else t
    case ClearAll(entries) => ClosedAll(t, Present(entries, t.plots))
    case ChangeFilepath(id, _, newFilepath) => if id in t.plots then Rebound(t, id, newFilepath, false) else t
  }

  // ---------------------------------------------------------------------------
  // The manager

  class PlotManager {
    var plots: map<PlotId, Plot>
    var order: seq<PlotId>
    var nextPlotId: int
    var isRestoring: bool
    var undoStack: seq<Command>
    var redoStack: seq<Command>
    var sent: seq<Message>
    const storage: LocalStorage

    function Table(): PlotTable
      reads this`plots, this`order, this`nextPlotId, this`sent
    {
      PlotTable(plots, order, nextPlotId, sent)
    }

    ghost predicate Valid()
      reads this`plots, this`order, this`nextPlotId, this`sent
    {
      TableValid(Table())
    }

    constructor (storage: LocalStorage)
      ensures Valid() && this.storage == storage
      ensures plots == map[] && order == [] && nextPlotId == 1 && sent == []
      ensures !isRestoring && undoStack == [] && redoStack == []
    {
      plots := map[];
      order := [];
      nextPlotId := 1;
      isRestoring := false;
      undoStack := [];
      redoStack := [];
      sent := [];
      this.storage := storage;
    }

    /** Stores `{plotId, filepath}` of every bound plot, in visible order. */
    method SaveSession()
      modifies storage`dyreSession
      ensures storage.dyreSession == Stored(SessionOf(order, plots))
    {
      storage.dyreSession := Stored(SessionOf(order, plots));
    }

    /** Pushes `action` on the undo stack and empties the redo stack. */
    method AddToHistory(action: Command)
      modifies this`undoStack, this`redoStack
      ensures undoStack == old(undoStack) + [action] && redoStack == []
    {
      undoStack := undoStack + [action];
      redoStack := [];
    }

    /** `plot.watchFile(filepath, {recordHistory, saveSession, force})`. */
    method WatchFile(plotId: PlotId, filepath: Path, recordHistory: bool, saveSession: bool, force: bool)
      requires Valid() && plotId in plots
      modifies this`plots, this`sent, this`undoStack, this`redoStack, storage`dyreSession
      ensures Valid()
      ensures Table() == Rebound(old(Table()), plotId, filepath, force)
      ensures plotId in plots
      ensures !recordHistory || isRestoring || old(plots)[plotId].fullFilepath == "" || plots[plotId] == old(plots)[plotId] ==>
        undoStack == old(undoStack) && redoStack == old(redoStack)
      ensures recordHistory && !isRestoring && old(plots)[plotId].fullFilepath != "" && plots[plotId] != old(plots)[plotId] ==>
        && undoStack == old(undoStack) + [ChangeFilepath(plotId, old(plots)[plotId].fullFilepath, plots[plotId].fullFilepath)]
        && redoStack == []
      ensures !saveSession || isRestoring || sent == old(sent) ==> storage.dyreSession == old(storage.dyreSession)
      ensures saveSession && !isRestoring && sent != old(sent) ==> storage.dyreSession == Stored(SessionOf(order, plots))
    {
      var target := Trim(filepath);
      var previous := plots[plotId].fullFilepath;
      var pathChanged := previous != target;
      if target != "" && (pathChanged || force) {
        ghost var after := Rebound(Table(), plotId, filepath, force);
        if pathChanged && recordHistory && previous != "" && !isRestoring {
          AddToHistory(ChangeFilepath(plotId, previous, target));
        }
        if pathChanged {
          plots := plots[plotId := Plot(plotId, target)];
        }
        sent := sent + [Message.WatchFilepath(target, plotId)];
        assert Table() == after;
        if saveSession && !isRestoring {
          SaveSession();
        }
      }
    }

    /** `createPlot(filepath, {plotId, trackHistory})`; an absent `plotId`
        takes the next id from the allocator. */
    method CreatePlot(filepath: Path, plotId: Option<PlotId>, trackHistory: bool) returns (id: PlotId)
      requires Valid()
      modifies this`plots, this`order, this`nextPlotId, this`sent, this`undoStack, this`redoStack, storage`dyreSession
      ensures Valid()
      ensures plotId.None? ==> id == old(nextPlotId) && id !in old(plots) && nextPlotId == id + 1
      ensures plotId.Some? ==> id == plotId.value
      ensures Table() == CreatedAt(old(Table()), id, filepath)
      ensures !trackHistory || isRestoring ==> undoStack == old(undoStack) && redoStack == old(redoStack)
      ensures trackHistory && !isRestoring ==> undoStack == old(undoStack) + [Create(id, filepath)] && redoStack == []
      ensures isRestoring ==> storage.dyreSession == old(storage.dyreSession)
      ensures !isRestoring ==> storage.dyreSession == Stored(SessionOf(order, plots))
    {
      ghost var t0 := Table();
      if plotId.Some? {
        id := plotId.value;
        nextPlotId := Max(nextPlotId, id + 1);
      } else {
        id := nextPlotId;
        nextPlotId := nextPlotId + 1;
      }
      AddPlot(id);
      assert Table() == Registered(t0, id);
      if filepath != "" {
        WatchFile(id, filepath, false, false, false);
      } else {
        assert Trim(filepath) == "";
      }
      assert Table() == CreatedAt(t0, id, filepath);
      if trackHistory && !isRestoring {
        AddToHistory(Create(id, filepath));
      }
      if !isRestoring {
        SaveSession();
      }
    }

    /** `plots.set(id, new Plot(id))`: an unbound plot under an id the
        allocator has passed; its container goes last unless the id is taken. */
    method AddPlot(id: PlotId)
      requires Valid() && id < nextPlotId
      modifies this`plots, this`order
      ensures Valid()
      ensures plots == old(plots)[id := Plot(id, "")]
      ensures order == if id in old(plots) then old(order) else old(order) + [id]
    {
      if id !in plots {
        order := order + [id];
      }
      plots := plots[id := Plot(id, "")];
    }

    /** `removePlot(plotId, {recordHistory})`, together with the removal of the
        plot's container from the page that `plot.remove()` does first. */
    method RemovePlot(plotId: PlotId, recordHistory: bool)
      requires Valid()
      modifies this`plots, this`order, this`undoStack, this`redoStack, storage`dyreSession
      ensures Valid()
      ensures plots == old(plots) - {plotId} && order == Without(old(order), plotId)
      ensures plotId !in old(plots) || !recordHistory || isRestoring ==>
        undoStack == old(undoStack) && redoStack == old(redoStack)
      ensures plotId in old(plots) && recordHistory && !isRestoring ==>
        undoStack == old(undoStack) + [Remove(plotId, old(plots)[plotId].fullFilepath)] && redoStack == []
      ensures plotId !in old(plots) || isRestoring ==> storage.dyreSession == old(storage.dyreSession)
      ensures plotId in old(plots) && !isRestoring ==> storage.dyreSession == Stored(SessionOf(order, plots))
    {
      if plotId !in plots {
        WithoutAbsent(order, plotId);
        assert plots - {plotId} == plots;
        return;
      }
      if recordHistory && !isRestoring {
        AddToHistory(Remove(plotId, plots[plotId].fullFilepath));
      }
      assert Closed(Table(), plots[plotId]).plots == plots - {plotId};
      order := Without(order, plotId);
      plots := plots - {plotId};
      if !isRestoring {
        SaveSession();
      }
    }

    /** `plot.remove({recordHistory})`: emits `unwatch` for a bound plot, then
        removes it. */
    method ClosePlot(plot: Plot, recordHistory: bool)
      requires Valid()
      requires plot.plotId in plots ==> plots[plot.plotId] == plot
      modifies this`plots, this`order, this`sent, this`undoStack, this`redoStack, storage`dyreSession
      ensures Valid()
      ensures Table() == Closed(old(Table()), plot)
      ensures plot.plotId !in old(plots) || !recordHistory || isRestoring ==>
        undoStack == old(undoStack) && redoStack == old(redoStack)
      ensures plot.plotId in old(plots) && recordHistory && !isRestoring ==>
        undoStack == old(undoStack) + [Remove(plot.plotId, old(plots)[plot.plotId].fullFilepath)] && redoStack == []
      ensures plot.plotId !in old(plots) || isRestoring ==> storage.dyreSession == old(storage.dyreSession)
      ensures plot.plotId in old(plots) && !isRestoring ==> storage.dyreSession == Stored(SessionOf(order, plots))
    {
      if plot.fullFilepath != "" {
        sent := sent + [Unwatch(plot.fullFilepath, plot.plotId)];
      }
      RemovePlot(plot.plotId, recordHistory);
    }

    /** `createPlot(filepath, {plotId, trackHistory: false})` for each entry
        with a non-empty filepath, while the manager is restoring. */
    method RecreateAll(entries: seq<SessionEntry>)
      requires Valid() && isRestoring
      modifies this`plots, this`order, this`nextPlotId, this`sent, this`undoStack, this`redoStack, storage`dyreSession
      ensures Valid()
      ensures Table() == Recreated(old(Table()), entries)
      ensures undoStack == old(undoStack) && redoStack == old(redoStack)
      ensures storage.dyreSession == old(storage.dyreSession)
    {
      var i := 0;
      while i < |entries|
        invariant 0 <= i <= |entries|
        invariant Valid() && isRestoring
        invariant Table() == Recreated(old(Table()), entries[..i])
        invariant undoStack == old(undoStack) && redoStack == old(redoStack)
        invariant storage.dyreSession == old(storage.dyreSession)
      {
        var entry := entries[i];
        assert entries[..i + 1][..i] == entries[..i];
        if entry.filepath != "" {
          var _ := CreatePlot(entry.filepath, Some(entry.plotId), false);
        }
        i := i + 1;
      }
      assert entries[..i] == entries;
    }

    /** `plot.remove({recordHistory: false})` for each of `toRemove`, while the
        manager is restoring. */
    method CloseAll(toRemove: seq<Plot>)
      requires Valid() && isRestoring
      requires AreLive(toRemove, plots)
      modifies this`plots, this`order, this`nextPlotId, this`sent, this`undoStack, this`redoStack, storage`dyreSession
      ensures Valid()
      ensures Table() == ClosedAll(old(Table()), toRemove)
      ensures undoStack == old(undoStack) && redoStack == old(redoStack)
      ensures storage.dyreSession == old(storage.dyreSession)
    {
      var i := 0;
      while i < |toRemove|
        invariant 0 <= i <= |toRemove|
        invariant Valid() && isRestoring
        invariant Table() == ClosedAll(old(Table()), toRemove[..i])
        invariant AreLive(toRemove, plots)
        invariant undoStack == old(undoStack) && redoStack == old(redoStack)
        invariant storage.dyreSession == old(storage.dyreSession)
      {
        assert toRemove[..i + 1][..i] == toRemove[..i];
        LiveMember(toRemove, plots, i);
        ClosedKeepsLive(Table(), toRemove[i], toRemove);
        ClosePlot(toRemove[i], false);
        i := i + 1;
      }
      assert toRemove[..i] == toRemove;
    }

    /** `clearAllPlots()`: one `clearAll` command holding every plot's
        `{plotId, filepath}`, then every plot removed without further history. */
    method ClearAllPlots()
      requires Valid()
      modifies this`plots, this`order, this`nextPlotId, this`sent, this`isRestoring, this`undoStack, this`redoStack, storage`dyreSession
      ensures Valid()
      ensures old(plots) == map[] ==>
        && Table() == old(Table()) && isRestoring == old(isRestoring)
        && undoStack == old(undoStack) && redoStack == old(redoStack)
        && storage.dyreSession == old(storage.dyreSession)
      ensures old(plots) != map[] ==>
        && Table() == ClosedAll(old(Table()), Listed(old(order), old(plots)))
        && undoStack == old(undoStack) + [ClearAll(Snapshot(old(order), old(plots)))]
        && redoStack == [] && !isRestoring
        && storage.dyreSession == Stored(SessionOf(order, plots))
    {
      if plots == map[] {
        return;
      }
      var snapshot := Snapshot(order, plots);
      AddToHistory(ClearAll(snapshot));
      var plotsToRemove := Listed(order, plots);
      isRestoring := true;
      ListedLive(order, plots);
      CloseAll(plotsToRemove);
      isRestoring := false;
      SaveSession();
    }

    /** `undo()`: moves the top command to the redo stack and replays its
        inverse with history recording and session saves suppressed. */
    method Undo()
      requires Valid()
      modifies this`plots, this`order, this`nextPlotId, this`sent, this`isRestoring, this`undoStack, this`redoStack, storage`dyreSession
      ensures Valid()
      ensures old(undoStack) == [] ==>
        && Table() == old(Table()) && isRestoring == old(isRestoring)
        && undoStack == old(undoStack) && redoStack == old(redoStack)
        && storage.dyreSession == old(storage.dyreSession)
      ensures old(undoStack) != [] ==>
        var action := old(undoStack)[|old(undoStack)| - 1];
        && undoStack == old(undoStack)[..|old(undoStack)| - 1]
        && redoStack == old(redoStack) + [action]
        && Table() == Undone(old(Table()), action)
        && !isRestoring
        && storage.dyreSession == Stored(SessionOf(order, plots))
    {
      if undoStack == [] {
        return;
      }
      var action := undoStack[|undoStack| - 1];
      undoStack := undoStack[..|undoStack| - 1];
      redoStack := redoStack + [action];
      isRestoring := true;
      Revert(action);
      isRestoring := false;
      SaveSession();
    }

    /** The body of `undo()` for one command, run while restoring. */
    method Revert(action: Command)
      requires Valid() && isRestoring
      modifies this`plots, this`order, this`nextPlotId, this`sent, this`undoStack, this`redoStack, storage`dyreSession
      ensures Valid()
      ensures Table() == Undone(old(Table()), action)
      ensures undoStack == old(undoStack) && redoStack == old(redoStack)
      ensures storage.dyreSession == old(storage.dyreSession)
    {
      match action {
        case Create(id, _) =>
          if id in plots {
            ClosePlot(plots[id], false);
          }
        case Remove(id, filepath) =>
          var _ := CreatePlot(filepath, Some(id), false);
        case ClearAll(entries) =>
          RecreateAll(entries);
        case ChangeFilepath(id, oldFilepath, _) =>
          if id in plots {
            WatchFile(id, oldFilepath, false, false, false);
          }
      }
    }

    /** `redo()`: moves the top command back to the undo stack and replays it
        with history recording and session saves suppressed. */
    method Redo()
      requires Valid()
      modifies this`plots, this`order, this`nextPlotId, this`sent, this`isRestoring, this`undoStack, this`redoStack, storage`dyreSession
      ensures Valid()
      ensures old(redoStack) == [] ==>
        && Table() == old(Table()) && isRestoring == old(isRestoring)
        && undoStack == old(undoStack) && redoStack == old(redoStack)
        && storage.dyreSession == old(storage.dyreSession)
      ensures old(redoStack) != [] ==>
        var action := old(redoStack)[|old(redoStack)| - 1];
        && redoStack == old(redoStack)[..|old(redoStack)| - 1]
        && undoStack == old(undoStack) + [action]
        && Table() == Redone(old(Table()), action)
        && !isRestoring
        && storage.dyreSession == Stored(SessionOf(order, plots))
    {
      if redoStack == [] {
        return;
      }
      var action := redoStack[|redoStack| - 1];
      redoStack := redoStack[..|redoStack| - 1];
      undoStack := undoStack + [action];
      isRestoring := true;
      Replay(action);
      isRestoring := false;
      SaveSession();
    }

    /** The body of `redo()` for one command, run while restoring. */
    method Replay(action: Command)
      requires Valid() && isRestoring
      modifies this`plots, this`order, this`nextPlotId, this`sent, this`undoStack, this`redoStack, storage`dyreSession
      ensures Valid()
      ensures Table() == Redone(old(Table()), action)
      ensures undoStack == old(undoStack) && redoStack == old(redoStack)
      ensures storage.dyreSession == old(storage.dyreSession)
    {
      match action {
        case Create(id, filepath) =>
          var _ := CreatePlot(filepath, Some(id), false);
        case Remove(id, _) =>
          if id in plots {
            ClosePlot(plots[id], false);
          }
        case ClearAll(entries) =>
          var plotsToRemove := Present(entries, plots);
          CloseAll(plotsToRemove);
        case ChangeFilepath(id, _, newFilepath) =>
          if id in plots {
            WatchFile(id, newFilepath, false, false, false);
          }
      }
    }

    /** `findPlotByFilepath(filepath)`: the first plot, in table order, bound
        to exactly `filepath`; none for an empty path. */
    method FindPlotByFilepath(filepath: Path) returns (r: Option<Plot>)
      requires Valid()
      ensures r.Some? ==>
        filepath != "" && r.value.plotId in plots && plots[r.value.plotId] == r.value
        && r.value.fullFilepath == filepath
      ensures r.None? <==> filepath == "" || forall id :: id in plots ==> plots[id].fullFilepath != filepath
      ensures r.Some? ==> forall j :: 0 <= j < |order| && order[j] == r.value.plotId ==>
        forall i :: 0 <= i < j ==> plots[order[i]].fullFilepath != filepath
    {
      if filepath == "" {
        return None;
      }
      var i := 0;
      while i < |order|
        invariant 0 <= i <= |order|
        invariant forall k :: 0 <= k < i ==> plots[order[k]].fullFilepath != filepath
      {
        var plot := plots[order[i]];
        assert plot.plotId == order[i];
        if plot.fullFilepath == filepath {
          return Some(plot);
        }
        i := i + 1;
      }
      forall id | id in plots ensures plots[id].fullFilepath != filepath {
        assert id in order;
        var j :| 0 <= j < |order| && order[j] == id;
      }
      return None;
    }

    /** `watchFilepath(filepath)`: focuses the plot already bound to the
        trimmed path, or creates one (recording a `create` that carries no
        path) and binds it. */
    method WatchFilepath(filepath: Path) returns (r: Option<PlotId>)
      requires Valid()
      modifies this`plots, this`order, this`nextPlotId, this`sent, this`undoStack, this`redoStack, storage`dyreSession
      ensures Valid()
      ensures r.None? <==> Trim(filepath) == ""
      ensures r.Some? ==> r.value in plots && plots[r.value].fullFilepath == Trim(filepath)
      ensures r.None? || r.value in old(plots) ==>
        && Table() == old(Table()) && undoStack == old(undoStack) && redoStack == old(redoStack)
        && storage.dyreSession == old(storage.dyreSession)
      ensures r.Some? && r.value !in old(plots) ==>
        && r.value == old(nextPlotId)
        && (forall id :: id in old(plots) ==> old(plots)[id].fullFilepath != Trim(filepath))
        && Table() == CreatedAt(old(Table()), r.value, Trim(filepath))
      ensures r.Some? && r.value !in old(plots) && isRestoring ==>
        undoStack == old(undoStack) && redoStack == old(redoStack) && storage.dyreSession == old(storage.dyreSession)
      ensures r.Some? && r.value !in old(plots) && !isRestoring ==>
        && undoStack == old(undoStack) + [Create(r.value, "")] && redoStack == []
        && storage.dyreSession == Stored(SessionOf(order, plots))
    {
      var target := Trim(filepath);
      if target == "" {
        return None;
      }
      var existing := FindPlotByFilepath(target);
      if existing.Some? {
        return Some(existing.value.plotId);
      }
      TrimIsTrimmed(target);
      var id := OpenPlot(target);
      r := Some(id);
    }

    /** `createPlot(null)`, then `watchFile(target, {recordHistory: false})`:
        a new plot under the next id bound to `target`, with a `create` that
        carries no path. */
    method OpenPlot(target: Path) returns (id: PlotId)
      requires Valid() && target != "" && Trim(target) == target
      modifies this`plots, this`order, this`nextPlotId, this`sent, this`undoStack, this`redoStack, storage`dyreSession
      ensures Valid()
      ensures id == old(nextPlotId) && id !in old(plots)
      ensures id in plots && plots[id].fullFilepath == target
      ensures Table() == CreatedAt(old(Table()), id, target)
      ensures isRestoring ==>
        undoStack == old(undoStack) && redoStack == old(redoStack) && storage.dyreSession == old(storage.dyreSession)
      ensures !isRestoring ==>
        && undoStack == old(undoStack) + [Create(id, "")] && redoStack == []
        && storage.dyreSession == Stored(SessionOf(order, plots))
    {
      ghost var t0 := Table();
      id := CreatePlot("", None, true);
      assert Trim("") == "";
      assert Table() == Registered(t0, id);
      WatchFile(id, target, false, true, false);
      assert Table() == CreatedAt(t0, id, target);
    }

    /** `restoreSession()`: on an empty manager, recreates every stored plot
        with a non-empty path under its saved id, then saves the session. */
    method RestoreSession() returns (restored: bool)
      requires Valid()
      modifies this`plots, this`order, this`nextPlotId, this`sent, this`isRestoring, this`undoStack, this`redoStack, storage`dyreSession
      ensures Valid()
      ensures restored <==> old(plots) == map[] && old(storage.dyreSession).Stored? && old(storage.dyreSession).plots != []
      ensures !restored ==>
        && Table() == old(Table()) && isRestoring == old(isRestoring)
        && storage.dyreSession == old(storage.dyreSession)
      ensures restored ==>
        && Table() == Recreated(old(Table()), old(storage.dyreSession).plots)
        && !isRestoring
        && storage.dyreSession == Stored(SessionOf(order, plots))
      ensures undoStack == old(undoStack) && redoStack == old(redoStack)
    {
      if plots != map[] {
        return false;
      }
      var session := storage.dyreSession;
      if !session.Stored? || session.plots == [] {
        return false;
      }
      isRestoring := true;
      RecreateAll(session.plots);
      isRestoring := false;
      SaveSession();
      return true;
    }

    /** `resubscribePlots()`: a forced `watchFile` on its own path for every
        bound plot, which re-emits one `watchFilepath` per saved session entry,
        in visible order, and changes nothing else. */
    method ResubscribePlots()
      requires Valid()
      modifies this`plots, this`sent, this`undoStack, this`redoStack, storage`dyreSession
      ensures Valid()
      ensures plots == old(plots)
      ensures sent == old(sent) + Watches(SessionOf(order, plots))
      ensures undoStack == old(undoStack) && redoStack == old(redoStack)
      ensures storage.dyreSession == old(storage.dyreSession)
    {
      var i := 0;
      while i < |order|
        invariant 0 <= i <= |order|
        invariant Valid() && plots == old(plots)
        invariant sent == old(sent) + Watches(SessionOf(order[..i], plots))
        invariant undoStack == old(undoStack) && redoStack == old(redoStack)
        invariant storage.dyreSession == old(storage.dyreSession)
      {
        ResubscribeAt(i, old(sent));
        i := i + 1;
      }
      assert order[..i] == order;
    }

    /** One step of `resubscribePlots()`: the plot in container `i`, when
        bound, re-sends its `watchFilepath` through a forced `watchFile` of its
        own path, which extends the messages by that container's. */
    method ResubscribeAt(i: nat, ghost prior: seq<Message>)
      requires Valid() && i < |order|
      requires sent == prior + Watches(SessionOf(order[..i], plots))
      modifies this`plots, this`sent, this`undoStack, this`redoStack, storage`dyreSession
      ensures Valid() && plots == old(plots)
      ensures sent == prior + Watches(SessionOf(order[..i + 1], plots))
      ensures undoStack == old(undoStack) && redoStack == old(redoStack)
      ensures storage.dyreSession == old(storage.dyreSession)
    {
      var id := order[i];
      WatchesStep(order, plots, i);
      if plots[id].fullFilepath != "" {
        ReboundOwnPath(Table(), id);
        WatchFile(id, plots[id].fullFilepath, false, false, true);
      }
    }

    /** The `filepath` / `initialFilepath` message for `plotId`: when the plot
        exists and the server reports content, its source path becomes the
        most recent path. */
    method ReceiveFilepath(plotId: PlotId, filepath: Path)
      modifies storage`recentPaths
      ensures storage.recentPaths ==
        (if plotId in plots && filepath != "" && plots[plotId].fullFilepath != ""
         then RecentPaths.MoveToFront(old(storage.recentPaths), plots[plotId].fullFilepath, MAX_RECENT_PATHS)
         else old(storage.recentPaths))
    {
      if plotId in plots && filepath != "" && plots[plotId].fullFilepath != "" {
        AddRecentPath(storage, plots[plotId].fullFilepath);
      }
    }
  }
}

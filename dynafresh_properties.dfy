/** Properties of the dynafresh plot table: what `saveSession` stores, how
    `watchFilepath` decides between an existing plot and a new one, and what a
    restore followed by a save gives back. */
module DynafreshProperties {
  import opened Common
  import opened Strings
  import opened Lists
  import opened Dynafresh

  // ---------------------------------------------------------------------------
  // saveSession

  /** The saved list holds exactly the plots of the visible order whose input
      is non-empty, each with its input as the path. */
  lemma {:induction false} SessionEntriesListed(order: seq<PlotId>, plots: map<PlotId, Plot>)
    ensures forall e :: e in SessionOf(order, plots) ==>
      e.plotId in order && e.plotId in plots && e.filepath == plots[e.plotId].input && e.filepath != ""
    ensures forall id :: id in order && id in plots && plots[id].input != "" ==>
      SessionEntry(id, plots[id].input) in SessionOf(order, plots)
    ensures IsSubsequence(Ids(SessionOf(order, plots)), order)
  {
    if order == [] {
    } else {
      var init := order[..|order| - 1];
      var id := order[|order| - 1];
      SessionEntriesListed(init, plots);
      assert order == init + [id];
      var before := SessionOf(init, plots);
      SubsequenceAppend(Ids(before), init, id);
      if id in plots && plots[id].input != "" {
        var after := before + [SessionEntry(id, plots[id].input)];
        assert after[..|after| - 1] == before;
        assert Ids(after) == Ids(before) + [id];
      } else {
        assert SessionOf(order, plots) == before;
      }
    }
  }

  /** A plot missing from the visible order does not affect the saved list. */
  lemma {:induction false} SessionOfIgnoresUnlisted(order: seq<PlotId>, plots: map<PlotId, Plot>, id: PlotId, p: Plot)
    requires id !in order
    ensures SessionOf(order, plots[id := p]) == SessionOf(order, plots)
  {
    if order != [] {
      SessionOfIgnoresUnlisted(order[..|order| - 1], plots, id, p);
    }
  }

  // ---------------------------------------------------------------------------
  // watchFilepath

  /** A non-blank path whose image no plot has loaded opens exactly one plot:
      under the next id, with the trimmed path as input, last in the visible
      order, with one `watchFilepath` for that path. */
  lemma WatchedPathOpensOne(t: PlotTable, filepath: Path)
    requires TableValid(t) && Trim(filepath) != "" && !Loaded(t.plots, Trim(filepath))
    ensures var r := WatchedPath(t, filepath); var id := t.nextPlotId;
      && id !in t.plots
      && r.plots == t.plots[id := Plot(id, Trim(filepath), None)]
      && r.order == t.order + [id] && r.nextPlotId == id + 1
      && r.sent == t.sent + [Message.WatchFilepath(Trim(filepath), id)]
  {
    TrimIsTrimmed(Trim(filepath));
  }

  /** The duplicate check looks at loaded images only: watching the same path
      twice before the server has answered opens two plots on it. */
  lemma WatchedTwiceBeforeLoad(t: PlotTable, filepath: Path)
    requires TableValid(t) && Trim(filepath) != "" && !Loaded(t.plots, Trim(filepath))
    ensures var r := WatchedPath(WatchedPath(t, filepath), filepath); var id := t.nextPlotId;
      && r.plots == t.plots[id := Plot(id, Trim(filepath), None)][id + 1 := Plot(id + 1, Trim(filepath), None)]
      && r.order == t.order + [id, id + 1]
  {
    var target := Trim(filepath);
    var id := t.nextPlotId;
    WatchedPathOpensOne(t, filepath);
    var s := WatchedPath(t, filepath);
    assert !Loaded(s.plots, target) by {
      forall k | k in s.plots ensures s.plots[k].filepath != Some(target) {
        if k != id {
          assert s.plots[k] == t.plots[k];
        }
      }
    }
    WatchedPathOpensOne(s, filepath);
  }

  /** Once the server has reported the image of the path for some plot,
      watching the path again changes nothing. */
  lemma WatchedAfterLoad(t: PlotTable, id: PlotId, filepath: Path)
    requires id in t.plots && Trim(filepath) != ""
    ensures var s := Received(t, id, Some(Trim(filepath)));
      WatchedPath(s, filepath) == s
  {
    var s := Received(t, id, Some(Trim(filepath)));
    assert s.plots[id].filepath == Some(Trim(filepath));
  }

  // ---------------------------------------------------------------------------
  // restoreSession

  /** The stored entries with a non-empty filepath, renumbered from `next`
      upward: what the plots `restoreSession` opens are saved as. */
  function Renumbered(entries: seq<SessionEntry>, next: PlotId): (r: seq<SessionEntry>)
    ensures |r| <= |entries|
  {
    if entries == [] then []
    else
      var e := entries[|entries| - 1];
      var init := Renumbered(entries[..|entries| - 1], next);
      init + (if e.filepath != "" then [SessionEntry(next + |init|, e.filepath)] else [])
  }

  /** The renumbered entries carry consecutive ids from `next` and non-empty
      paths. */
  lemma {:induction false} RenumberedIds(entries: seq<SessionEntry>, next: PlotId)
    ensures forall i :: 0 <= i < |Renumbered(entries, next)| ==>
      Renumbered(entries, next)[i].plotId == next + i && Renumbered(entries, next)[i].filepath != ""
  {
    if entries != [] {
      var init := entries[..|entries| - 1];
      RenumberedIds(init, next);
      var e := entries[|entries| - 1];
      var before := Renumbered(init, next);
      var r := Renumbered(entries, next);
      assert r == before + (if e.filepath != "" then [SessionEntry(next + |before|, e.filepath)] else []);
      forall i | 0 <= i < |r| ensures r[i].plotId == next + i && r[i].filepath != "" {
        if i < |before| {
          assert r[i] == before[i];
        }
      }
    }
  }

  /** The paths of a list of entries. */
  function Paths(entries: seq<SessionEntry>): (r: seq<Path>)
    ensures |r| == |entries|
    ensures forall i :: 0 <= i < |entries| ==> r[i] == entries[i].filepath
  {
    if entries == [] then [] else Paths(entries[..|entries| - 1]) + [entries[|entries| - 1].filepath]
  }

  /** Every container's id lies below the allocator. */
  predicate Fresh(t: PlotTable)
  {
    forall i :: 0 <= i < |t.order| ==> t.order[i] < t.nextPlotId
  }

  /** A restore keeps the containers' ids below the allocator. */
  lemma {:induction false} RestoredFresh(t: PlotTable, entries: seq<SessionEntry>)
    requires Fresh(t)
    ensures Fresh(Restored(t, entries))
  {
    if entries != [] {
      RestoredFresh(t, entries[..|entries| - 1]);
      RestoredLast(t, entries);
    }
  }

  /** Opening a plot with a non-empty input appends its entry, under the next
      id, to the saved list. */
  lemma OpenedSession(s: PlotTable, input: string)
    requires Fresh(s) && input != ""
    ensures var r := Opened(s, input);
      SessionOf(r.order, r.plots) == SessionOf(s.order, s.plots) + [SessionEntry(s.nextPlotId, input)]
  {
    var id := s.nextPlotId;
    var r := Opened(s, input);
    assert id !in s.order;
    SessionOfIgnoresUnlisted(s.order, s.plots, id, Plot(id, input, None));
    assert r.order[..|r.order| - 1] == s.order;
  }

  /** Saving after a restore gives the session saved before, followed by the
      restored entries with a non-empty filepath under fresh consecutive ids
      from the old `nextPlotId`; the allocator moves past them. */
  lemma {:induction false} RestoreThenSave(t: PlotTable, entries: seq<SessionEntry>)
    requires Fresh(t)
    ensures var r := Restored(t, entries);
      && SessionOf(r.order, r.plots) == SessionOf(t.order, t.plots) + Renumbered(entries, t.nextPlotId)
      && r.nextPlotId == t.nextPlotId + |Renumbered(entries, t.nextPlotId)|
  {
    if entries != [] {
      RestoreThenSave(t, entries[..|entries| - 1]);
      RestoreStep(t, entries);
    }
  }

  /** `RestoreThenSave` for a list, given it for the list without its last
      entry. */
  lemma RestoreStep(t: PlotTable, entries: seq<SessionEntry>)
    requires Fresh(t) && entries != []
    requires var s := Restored(t, entries[..|entries| - 1]);
      && SessionOf(s.order, s.plots) == SessionOf(t.order, t.plots) + Renumbered(entries[..|entries| - 1], t.nextPlotId)
      && s.nextPlotId == t.nextPlotId + |Renumbered(entries[..|entries| - 1], t.nextPlotId)|
    ensures var r := Restored(t, entries);
      && SessionOf(r.order, r.plots) == SessionOf(t.order, t.plots) + Renumbered(entries, t.nextPlotId)
      && r.nextPlotId == t.nextPlotId + |Renumbered(entries, t.nextPlotId)|
  {
    var init := entries[..|entries| - 1];
    var e := entries[|entries| - 1];
    var s := Restored(t, init);
    var before := Renumbered(init, t.nextPlotId);
    var saved := SessionOf(t.order, t.plots);
    RestoredFresh(t, init);
    RenumberedLast(entries, t.nextPlotId);
    RestoredLast(t, entries);
    var r := Restored(t, entries);
    if e.filepath != "" {
      var x := SessionEntry(t.nextPlotId + |before|, e.filepath);
      assert Renumbered(entries, t.nextPlotId) == before + [x];
      assert r == Opened(s, e.filepath);
      OpenedAfter(s, e.filepath, saved, before, t.nextPlotId);
    } else {
      assert r == s && Renumbered(entries, t.nextPlotId) == before;
    }
  }

  /** Opening a plot on a table whose saved list is `saved + before`, with
      `before` numbered from `next`, extends `before` by the new plot's entry. */
  lemma OpenedAfter(s: PlotTable, input: string, saved: seq<SessionEntry>, before: seq<SessionEntry>, next: PlotId)
    requires Fresh(s) && input != ""
    requires SessionOf(s.order, s.plots) == saved + before && s.nextPlotId == next + |before|
    ensures var r := Opened(s, input);
      && SessionOf(r.order, r.plots) == saved + (before + [SessionEntry(next + |before|, input)])
      && r.nextPlotId == next + |before + [SessionEntry(next + |before|, input)]|
  {
    OpenedSession(s, input);
    var x := SessionEntry(next + |before|, input);
    assert saved + before + [x] == saved + (before + [x]);
  }

  /** One step of `Restored`, from the back. */
  lemma RestoredLast(t: PlotTable, entries: seq<SessionEntry>)
    requires entries != []
    ensures var s := Restored(t, entries[..|entries| - 1]);
      var e := entries[|entries| - 1];
      && (e.filepath != "" ==> Restored(t, entries) == Opened(s, e.filepath))
      && (e.filepath == "" ==> Restored(t, entries) == s)
  {
  }

  /** One step of `Renumbered`, from the back. */
  lemma RenumberedLast(entries: seq<SessionEntry>, next: PlotId)
    requires entries != []
    ensures var init := Renumbered(entries[..|entries| - 1], next);
      var e := entries[|entries| - 1];
      && (e.filepath != "" ==> Renumbered(entries, next) == init + [SessionEntry(next + |init|, e.filepath)])
      && (e.filepath == "" ==> Renumbered(entries, next) == init)
  {
    var init := Renumbered(entries[..|entries| - 1], next);
    var e := entries[|entries| - 1];
    var tail := if e.filepath != "" then [SessionEntry(next + |init|, e.filepath)] else [];
    assert Renumbered(entries, next) == init + tail;
    if e.filepath == "" {
      assert init + tail == init;
    }
  }

  /** Renumbering keeps the paths of entries whose paths are all non-empty. */
  lemma {:induction false} RenumberedKeepsPaths(entries: seq<SessionEntry>, next: PlotId)
    requires forall e :: e in entries ==> e.filepath != ""
    ensures Paths(Renumbered(entries, next)) == Paths(entries)
  {
    if entries != [] {
      var init := entries[..|entries| - 1];
      assert forall e :: e in init ==> e in entries;
      RenumberedKeepsPaths(init, next);
      var r := Renumbered(entries, next);
      assert r[..|r| - 1] == Renumbered(init, next);
      assert Paths(r) == Paths(r[..|r| - 1]) + [r[|r| - 1].filepath];
    }
  }

  /** Restoring a saved session into an empty manager and saving again stores
      the same paths in the same order, under fresh ids counted from the
      manager's allocator instead of the saved ones. */
  lemma SaveRestoreSave(t: PlotTable, u: PlotTable)
    requires u.plots == map[] && u.order == []
    ensures var saved := SessionOf(t.order, t.plots);
      var r := Restored(u, saved);
      var again := SessionOf(r.order, r.plots);
      && Paths(again) == Paths(saved)
      && forall i :: 0 <= i < |again| ==> again[i].plotId == u.nextPlotId + i
  {
    var saved := SessionOf(t.order, t.plots);
    RestoreThenSave(u, saved);
    var r := Restored(u, saved);
    assert SessionOf(u.order, u.plots) == [];
    assert SessionOf(r.order, r.plots) == Renumbered(saved, u.nextPlotId);
    SessionEntriesListed(t.order, t.plots);
    RenumberedKeepsPaths(saved, u.nextPlotId);
    RenumberedIds(saved, u.nextPlotId);
  }

  /** A restore opens nothing when no entry has a non-empty filepath, and
      otherwise opens at least the plot under the old `nextPlotId`; it never
      drops a plot. */
  lemma {:induction false} RestoredGrows(t: PlotTable, entries: seq<SessionEntry>)
    ensures (forall e :: e in entries ==> e.filepath == "") ==> Restored(t, entries) == t
    ensures (exists e :: e in entries && e.filepath != "") ==> t.nextPlotId in Restored(t, entries).plots
    ensures t.plots.Keys <= Restored(t, entries).plots.Keys
    ensures Restored(t, entries).nextPlotId >= t.nextPlotId
  {
    if entries != [] {
      var init := entries[..|entries| - 1];
      var e := entries[|entries| - 1];
      assert entries == init + [e];
      RestoredGrows(t, init);
      if e.filepath != "" && forall x :: x in init ==> x.filepath == "" {
        assert Restored(t, init) == t;
      }
    }
  }

  /** The restore as written, on a reconnect: a manager that restored the
      session `[{plotId: 1, filepath: "/a.png"}]` on its first connection
      opens the plot a second time on the next one, while the guarded restore
      leaves the single plot alone. */
  lemma ReconnectDuplicates()
    ensures var t0 := PlotTable(map[], [], 1, []);
      var entries := [SessionEntry(1, "/a.png")];
      var twice := Restored(Restored(t0, entries), entries);
      var guarded := RestoredOnce(RestoredOnce(t0, Stored(entries)), Stored(entries));
      && twice.plots.Keys == {1, 2} && twice.plots[1].input == "/a.png" && twice.plots[2].input == "/a.png"
      && guarded.plots.Keys == {1}
  {
    var t0 := PlotTable(map[], [], 1, []);
    var entries := [SessionEntry(1, "/a.png")];
    assert entries[..0] == [];
    var once := Restored(t0, entries);
    assert once == Opened(t0, "/a.png");
    assert Restored(once, entries) == Opened(once, "/a.png");
  }

  /** The guarded restore is idempotent: a second connection restores
      nothing more. */
  lemma RestoreOnceIdempotent(t: PlotTable, stored: StoredSession)
    ensures RestoredOnce(RestoredOnce(t, stored), stored) == RestoredOnce(t, stored)
  {
    if t.plots == map[] && stored.Stored? && stored.plots != [] {
      RestoredGrows(t, stored.plots);
      var r := Restored(t, stored.plots);
      if r.plots == map[] {
        assert forall e :: e in stored.plots ==> e.filepath == "";
      }
    }
  }

  /** The recent-paths list a restore leaves stays free of duplicates and
      within the cap when it started so. */
  lemma {:induction false} RecentAfterBounded(recent: seq<Path>, entries: seq<SessionEntry>)
    requires NoDuplicates(recent) && |recent| <= MAX_PATHS
    ensures var r := RecentAfter(recent, entries); NoDuplicates(r) && |r| <= MAX_PATHS
  {
    if entries != [] {
      var init := entries[..|entries| - 1];
      var e := entries[|entries| - 1];
      RecentAfterBounded(recent, init);
      if e.filepath != "" && Trim(e.filepath) != "" {
        RecentPaths.MoveToFrontProperties(RecentAfter(recent, init), Trim(e.filepath), MAX_PATHS);
      }
    }
  }
}

/** Properties of the dyre plot table that relate several operations: what
    undoing and redoing a command gives back, what clearing leaves behind, and
    the save/restore round trip of a session. */
module DyreProperties {
  import opened Common
  import opened Strings
  import opened Lists
  import opened Dyre

  /** What `saveSession` can have stored: non-empty trimmed paths under
      distinct ids. */
  predicate Restorable(entries: seq<SessionEntry>)
  {
    entries == [] ||
      var e := entries[|entries| - 1];
      var init := entries[..|entries| - 1];
      && Restorable(init)
      && e.filepath != "" && IsTrimmed(e.filepath) && e.plotId !in Ids(init)
  }

  // ---------------------------------------------------------------------------
  // Session save and restore

  /** A saved session names only plots whose containers are listed. */
  lemma {:induction false} SavedIdsListed(order: seq<PlotId>, plots: map<PlotId, Plot>)
    ensures forall id :: id in Ids(SessionOf(order, plots)) ==> id in order
  {
    if order != [] {
      var init := order[..|order| - 1];
      var id := order[|order| - 1];
      SavedIdsListed(init, plots);
      var before := SessionOf(init, plots);
      if id in plots && plots[id].fullFilepath != "" {
        var e := SessionEntry(id, plots[id].fullFilepath);
        assert SessionOf(order, plots) == before + [e];
        assert (before + [e])[..|before|] == before;
        assert Ids(before + [e]) == Ids(before) + [id];
      } else {
        assert SessionOf(order, plots) == before;
      }
    }
  }

  /** Every session saved from a table whose containers are distinct and whose
      paths are trimmed can be restored. */
  lemma {:induction false} SavedIsRestorable(order: seq<PlotId>, plots: map<PlotId, Plot>)
    requires NoDuplicates(order)
    requires forall id :: id in plots ==> IsTrimmed(plots[id].fullFilepath)
    ensures Restorable(SessionOf(order, plots))
  {
    if order != [] {
      var init := order[..|order| - 1];
      var id := order[|order| - 1];
      assert NoDuplicates(init);
      SavedIsRestorable(init, plots);
      var before := SessionOf(init, plots);
      if id in plots && plots[id].fullFilepath != "" {
        var e := SessionEntry(id, plots[id].fullFilepath);
        assert SessionOf(order, plots) == before + [e];
        assert (before + [e])[..|before|] == before;
        SavedIdsListed(init, plots);
        assert id !in init;
      } else {
        assert SessionOf(order, plots) == before;
      }
    }
  }

  /** The saved session ignores plots whose containers are not listed. */
  lemma {:induction false} SessionOfIgnoresUnlisted(order: seq<PlotId>, plots: map<PlotId, Plot>, id: PlotId, p: Plot)
    requires id !in order
    ensures SessionOf(order, plots[id := p]) == SessionOf(order, plots)
  {
    if order != [] {
      assert order[|order| - 1] != id;
      SessionOfIgnoresUnlisted(order[..|order| - 1], plots, id, p);
    }
  }

  /** Recreating one saved entry whose id has no container appends its
      container and extends the saved session by that entry. */
  lemma RestoreStep(s: PlotTable, e: SessionEntry, init: seq<SessionEntry>)
    requires e.plotId !in s.order && e.plotId !in s.plots
    requires e.filepath != "" && IsTrimmed(e.filepath)
    requires SessionOf(s.order, s.plots) == init
    requires forall id :: id in s.plots ==> id in s.order
    ensures var r := CreatedAt(s, e.plotId, e.filepath);
      && SessionOf(r.order, r.plots) == init + [e] && r.order == s.order + [e.plotId]
      && forall id :: id in r.plots ==> id in r.order
  {
    CreatedAtEffect(s, e.plotId, e.filepath);
    TrimIsTrimmed(e.filepath);
    var r := CreatedAt(s, e.plotId, e.filepath);
    assert r.plots == s.plots[e.plotId := Plot(e.plotId, e.filepath)];
    SessionOfIgnoresUnlisted(s.order, s.plots, e.plotId, Plot(e.plotId, e.filepath));
    assert r.order[..|r.order| - 1] == s.order;
  }

  /** Restoring the first `k` entries of a restorable session on an empty
      manager and then saving stores exactly those entries, with the
      containers in their order. */
  lemma {:induction false} RestorePrefixThenSave(u: PlotTable, entries: seq<SessionEntry>, k: nat)
    requires u.plots == map[] && u.order == []
    requires k <= |entries| && Restorable(entries[..k])
    ensures RestoredPrefix(u, entries, k)
  {
    if k == 0 {
      assert entries[..0] == [];
    } else {
      assert entries[..k][..k - 1] == entries[..k - 1];
      RestorePrefixThenSave(u, entries, k - 1);
      RestorePrefixStep(u, entries, k);
    }
  }

  /** Restoring the first `k` entries gives a table that saves exactly those
      entries, lists their containers in their order, and lists every plot. */
  ghost predicate RestoredPrefix(u: PlotTable, entries: seq<SessionEntry>, k: nat)
    requires k <= |entries|
  {
    var r := Recreated(u, entries[..k]);
    && SessionOf(r.order, r.plots) == entries[..k] && r.order == Ids(entries[..k])
    && forall id :: id in r.plots ==> id in r.order
  }

  /** The inductive step of `RestorePrefixThenSave`. */
  lemma RestorePrefixStep(u: PlotTable, entries: seq<SessionEntry>, k: nat)
    requires 0 < k <= |entries| && Restorable(entries[..k])
    requires RestoredPrefix(u, entries, k - 1)
    ensures RestoredPrefix(u, entries, k)
  {
    var init := entries[..k - 1];
    var e := entries[k - 1];
    var s := Recreated(u, init);
    assert init + [e] == entries[..k] && entries[..k][..k - 1] == init;
    assert Recreated(u, entries[..k]) == CreatedAt(s, e.plotId, e.filepath);
    RestoreStep(s, e, init);
  }

  /** `restoreSession` on an empty manager followed by `saveSession` stores
      the restored list again, and the containers come back in its order. */
  lemma RestoreThenSave(u: PlotTable, entries: seq<SessionEntry>)
    requires u.plots == map[] && u.order == []
    requires Restorable(entries)
    ensures var r := Recreated(u, entries);
      SessionOf(r.order, r.plots) == entries && r.order == Ids(entries)
  {
    assert entries[..|entries|] == entries;
    RestorePrefixThenSave(u, entries, |entries|);
    assert RestoredPrefix(u, entries, |entries|);
  }

  /** Recreating skips the entries without a path, so it does the same as
      recreating the bound entries alone. */
  lemma {:induction false} RecreatedSkipsUnbound(t: PlotTable, entries: seq<SessionEntry>)
    ensures Recreated(t, entries) == Recreated(t, Bound(entries))
  {
    if entries != [] {
      var init := entries[..|entries| - 1];
      var e := entries[|entries| - 1];
      RecreatedSkipsUnbound(t, init);
      if e.filepath != "" {
        assert Bound(entries) == Bound(init) + [e];
        assert (Bound(init) + [e])[..|Bound(init)|] == Bound(init);
      } else {
        assert Bound(entries) == Bound(init);
      }
    }
  }

  // ---------------------------------------------------------------------------
  // clearAllPlots and its undo

  /** `{plotId, filepath}` of each plot record, in order. */
  function EntriesOf(ps: seq<Plot>): (r: seq<SessionEntry>)
    ensures |r| == |ps|
  {
    if ps == [] then [] else EntriesOf(ps[..|ps| - 1]) + [SessionEntry(ps[|ps| - 1].plotId, ps[|ps| - 1].fullFilepath)]
  }

  /** The clear-all snapshot is the id and path of each listed plot. */
  lemma {:induction false} SnapshotIsListed(order: seq<PlotId>, plots: map<PlotId, Plot>)
    requires AllListed(order, plots) && forall id :: id in plots ==> plots[id].plotId == id
    ensures Snapshot(order, plots) == EntriesOf(Listed(order, plots))
  {
    if order != [] {
      var init := order[..|order| - 1];
      assert AllListed(init, plots);
      SnapshotIsListed(init, plots);
      var listed := Listed(init, plots);
      var p := plots[order[|order| - 1]];
      assert (listed + [p])[..|listed|] == listed;
    }
  }

  /** Removing plots one by one emits `unwatch` for each bound one, in order. */
  lemma {:induction false} ClosedAllSent(t: PlotTable, ps: seq<Plot>)
    ensures ClosedAll(t, ps).sent == t.sent + Unwatches(EntriesOf(ps))
  {
    if ps != [] {
      var init := ps[..|ps| - 1];
      var p := ps[|ps| - 1];
      ClosedAllSent(t, init);
      var entries := EntriesOf(init);
      var e := SessionEntry(p.plotId, p.fullFilepath);
      assert (entries + [e])[..|entries|] == entries;
      var unwatch := if p.fullFilepath != "" then [Unwatch(p.fullFilepath, p.plotId)] else [];
      assert Unwatches(entries + [e]) == Unwatches(entries) + unwatch;
      assert ClosedAll(t, init).sent + unwatch == t.sent + (Unwatches(entries) + unwatch);
    }
  }

  /** Closing the first `k` plots in visible order leaves the remaining
      containers. */
  lemma {:induction false} ClosedPrefix(t: PlotTable, k: nat)
    requires TableValid(t) && k <= |t.order|
    ensures AllListed(t.order[..k], t.plots)
    ensures ClosedAll(t, Listed(t.order[..k], t.plots)).order == t.order[k..]
  {
    assert AllListed(t.order[..k], t.plots) by {
      forall i | 0 <= i < k ensures t.order[..k][i] in t.plots {
        assert t.order[..k][i] == t.order[i];
      }
    }
    if k == 0 {
      assert t.order[..0] == [];
    } else {
      ClosedPrefix(t, k - 1);
      var ids := t.order[..k];
      var init := t.order[..k - 1];
      assert ids[..k - 1] == init;
      var id := t.order[k - 1];
      var p := t.plots[id];
      var listed := Listed(init, t.plots);
      assert Listed(ids, t.plots) == listed + [p];
      assert (listed + [p])[..|listed|] == listed;
      var rest := t.order[k - 1..];
      assert rest[1..] == t.order[k..];
      assert rest[0] !in rest[1..] by {
        forall j | k <= j < |t.order| ensures t.order[j] != id {
          assert t.order[k - 1] != t.order[j];
        }
      }
      WithoutHead(rest);
    }
  }

  /** `clearAllPlots` on a consistent table leaves no plot and no container,
      keeps the allocator, and emits `unwatch` for every bound plot in visible
      order. */
  lemma ClearedTable(t: PlotTable)
    requires TableValid(t)
    ensures var r := ClosedAll(t, Listed(t.order, t.plots));
      && r.plots == map[] && r.order == [] && r.nextPlotId == t.nextPlotId
      && r.sent == t.sent + Unwatches(Snapshot(t.order, t.plots))
  {
    ClosedPrefix(t, |t.order|);
    assert t.order[..|t.order|] == t.order;
    var listed := Listed(t.order, t.plots);
    ClosedAllSent(t, listed);
    SnapshotIsListed(t.order, t.plots);
    ClearedPlots(t);
  }

  /** Closing every listed plot leaves no plot registered. */
  lemma ClearedPlots(t: PlotTable)
    requires TableValid(t)
    ensures ClosedAll(t, Listed(t.order, t.plots)).plots == map[]
  {
    var listed := Listed(t.order, t.plots);
    var r := ClosedAll(t, listed);
    forall id | id in t.plots ensures id !in r.plots {
      var i :| 0 <= i < |t.order| && t.order[i] == id;
      assert listed[i] in listed;
    }
    assert r.plots.Keys == {};
  }

  /** Undoing `clearAll` recreates exactly the bound plots: the table then
      saves the same session as before the clear, its containers are those of
      the bound plots in their old order, and no unbound plot comes back. */
  lemma UndoClearAllRestoresSession(t: PlotTable)
    requires TableValid(t)
    ensures var cleared := ClosedAll(t, Listed(t.order, t.plots));
      var r := Undone(cleared, ClearAll(Snapshot(t.order, t.plots)));
      SessionOf(r.order, r.plots) == SessionOf(t.order, t.plots) && r.order == Ids(SessionOf(t.order, t.plots))
  {
    ClearedTable(t);
    var cleared := ClosedAll(t, Listed(t.order, t.plots));
    RecreatedSkipsUnbound(cleared, Snapshot(t.order, t.plots));
    SessionIsBoundSnapshot(t.order, t.plots);
    SavedIsRestorable(t.order, t.plots);
    RestoreThenSave(cleared, SessionOf(t.order, t.plots));
  }

  /** Redoing a `clearAll` after undoing it clears the table again: the
      snapshot names every plot the undo brought back, so no plot and no
      container remain. */
  lemma RedoClearAll(t: PlotTable)
    requires TableValid(t)
    ensures var snapshot := Snapshot(t.order, t.plots);
      var restored := Undone(ClosedAll(t, Listed(t.order, t.plots)), ClearAll(snapshot));
      var r := Redone(restored, ClearAll(snapshot));
      r.plots == map[] && r.order == [] && r.nextPlotId == restored.nextPlotId
  {
    var snapshot := Snapshot(t.order, t.plots);
    var u := Undone(ClosedAll(t, Listed(t.order, t.plots)), ClearAll(snapshot));
    UndoneClearAllNamed(t);
    ClosedAllNamed(u, snapshot);
  }

  /** Every plot the undo of a `clearAll` brings back is named by its
      snapshot. */
  lemma UndoneClearAllNamed(t: PlotTable)
    requires TableValid(t)
    ensures var snapshot := Snapshot(t.order, t.plots);
      var u := Undone(ClosedAll(t, Listed(t.order, t.plots)), ClearAll(snapshot));
      TableValid(u) && forall id :: id in u.plots ==> id in Ids(snapshot)
  {
    var snapshot := Snapshot(t.order, t.plots);
    var u := Undone(ClosedAll(t, Listed(t.order, t.plots)), ClearAll(snapshot));
    UndoClearAllRestoresSession(t);
    SavedIdsListed(t.order, t.plots);
    IdsOfSnapshot(t.order, t.plots);
  }

  /** The ids of a snapshot are the containers it was taken from. */
  lemma {:induction false} IdsOfSnapshot(order: seq<PlotId>, plots: map<PlotId, Plot>)
    requires AllListed(order, plots)
    ensures Ids(Snapshot(order, plots)) == order
  {
    if order != [] {
      var init := order[..|order| - 1];
      IdsOfSnapshot(init, plots);
      var id := order[|order| - 1];
      assert Snapshot(order, plots) == Snapshot(init, plots) + [SessionEntry(id, plots[id].fullFilepath)];
      assert Snapshot(order, plots)[..|order| - 1] == Snapshot(init, plots);
    }
  }

  /** An id of `Ids(entries)` belongs to one of the entries. */
  lemma {:induction false} IdsMember(entries: seq<SessionEntry>, id: PlotId)
    requires id in Ids(entries)
    ensures exists e :: e in entries && e.plotId == id
  {
    var init := entries[..|entries| - 1];
    var last := entries[|entries| - 1];
    if id == last.plotId {
      assert last in entries;
    } else {
      IdsMember(init, id);
      var e :| e in init && e.plotId == id;
      assert e in entries;
    }
  }

  /** Closing the live plots a list of entries names removes every plot when
      the entries name them all. */
  lemma ClosedAllNamed(u: PlotTable, entries: seq<SessionEntry>)
    requires TableValid(u)
    requires forall id :: id in u.plots ==> id in Ids(entries)
    ensures var r := ClosedAll(u, Present(entries, u.plots));
      r.plots == map[] && r.order == []
  {
    var present := Present(entries, u.plots);
    var r := ClosedAll(u, present);
    forall id | id in u.plots ensures id !in r.plots {
      IdsMember(entries, id);
      var e :| e in entries && e.plotId == id;
      assert u.plots[id] in present;
    }
    assert r.plots.Keys == {};
    if r.order != [] {
      FirstListed(r.order, r.plots);
      assert false;
    }
  }

  /** The first container of a consistent table has a registered plot. */
  lemma FirstListed(order: seq<PlotId>, plots: map<PlotId, Plot>)
    requires AllListed(order, plots) && order != []
    ensures order[0] in plots
  {
  }

  // ---------------------------------------------------------------------------
  // Undo and redo of single commands

  /** Undoing a `create` removes the plot again: the entries and containers
      are those from before the create, whatever path the command recorded. */
  lemma UndoCreate(t: PlotTable, id: PlotId, filepath: Path, recorded: Path)
    requires TableValid(t) && id !in t.plots
    ensures var r := Undone(CreatedAt(t, id, filepath), Create(id, recorded));
      r.plots == t.plots && r.order == t.order
  {
    CreatedAtEffect(t, id, filepath);
    forall i | 0 <= i < |t.order| ensures t.order[i] != id {
      assert t.order[i] in t.plots;
    }
    WithoutAppended(t.order, id);
    assert t.plots[id := Plot(id, Trim(filepath))] - {id} == t.plots;
  }

  /** Redoing an undone `create` makes the plot again with the path the
      command recorded: the created plot itself when `createPlot` recorded its
      own path, an unbound plot when `watchFilepath` recorded none. */
  lemma RedoCreate(t: PlotTable, id: PlotId, filepath: Path, recorded: Path)
    requires TableValid(t) && id !in t.plots
    ensures var r := Redone(Undone(CreatedAt(t, id, filepath), Create(id, recorded)), Create(id, recorded));
      r.plots == t.plots[id := Plot(id, Trim(recorded))] && r.order == t.order + [id]
  {
    UndoCreate(t, id, filepath, recorded);
    var u := Undone(CreatedAt(t, id, filepath), Create(id, recorded));
    CreatedAtEffect(u, id, recorded);
  }

  /** Undoing a `remove` brings the plot back under its id with its path; its
      container is appended at the end, and the allocator is unchanged. */
  lemma UndoRemove(t: PlotTable, id: PlotId)
    requires TableValid(t) && id in t.plots
    ensures var p := t.plots[id];
      var r := Undone(Closed(t, p), Remove(id, p.fullFilepath));
      r.plots == t.plots && r.order == Without(t.order, id) + [id] && r.nextPlotId == t.nextPlotId
  {
    var p := t.plots[id];
    var c := Closed(t, p);
    CreatedAtEffect(c, id, p.fullFilepath);
    TrimIsTrimmed(p.fullFilepath);
    assert c.plots[id := p] == t.plots;
  }

  /** Undoing a `changeFilepath` rebinds the plot to its previous path, and
      redoing it rebinds it to the new path again. */
  lemma UndoRedoChangeFilepath(t: PlotTable, id: PlotId, filepath: Path)
    requires TableValid(t) && id in t.plots
    requires t.plots[id].fullFilepath != "" && Trim(filepath) != "" && Trim(filepath) != t.plots[id].fullFilepath
    ensures var c := ChangeFilepath(id, t.plots[id].fullFilepath, Trim(filepath));
      var changed := Rebound(t, id, filepath, false);
      var undone := Undone(changed, c);
      && undone.plots == t.plots && undone.order == t.order
      && Redone(undone, c).plots == changed.plots
  {
    var previous := t.plots[id].fullFilepath;
    TrimIsTrimmed(previous);
    TrimIsTrimmed(Trim(filepath));
    assert t.plots[id := Plot(id, Trim(filepath))][id := Plot(id, previous)] == t.plots;
  }
}

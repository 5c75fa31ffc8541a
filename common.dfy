/** The data both plot clients share: identifiers, paths, the messages they send
    over the socket, and what they keep in the browser's localStorage. */
module Common {

  datatype Option<+T> = None | Some(value: T)

  /** A plot identifier (`plotId`); the managers allocate them from 1 upward. */
  type PlotId = int

  /** A file path as typed by the user; "" stands for an absent (null) path. */
  type Path = string

  /** JavaScript's `Math.max` on the integers the managers use. */
  function Max(a: int, b: int): (r: int)
    ensures r >= a && r >= b && (r == a || r == b)
  {
    if a < b then b else a
  }

  /** One `{plotId, filepath}` record, as stored in a saved session and in a
      clear-all snapshot. */
  datatype SessionEntry = SessionEntry(plotId: PlotId, filepath: Path)

  /** The plot ids of session entries, in order. */
  function Ids(entries: seq<SessionEntry>): seq<PlotId>
  {
    if entries == [] then [] else Ids(entries[..|entries| - 1]) + [entries[|entries| - 1].plotId]
  }

  /** What a session key of localStorage holds once read back: nothing, a value
      that does not parse into `{plots: [...]}`, or the list of plots. */
  datatype StoredSession = Missing | Corrupt | Stored(plots: seq<SessionEntry>)

  /** A message a client emits on its socket. */
  datatype Message =
    | WatchFilepath(filepath: Path, plotId: PlotId)
    | Unwatch(filepath: Path, plotId: PlotId)

  /** The browser's localStorage, restricted to the keys the clients use:
      `recentPaths` (shared by both clients), `dyreSession` and `dynafreshSession`. */
  class LocalStorage {
    var recentPaths: seq<Path>
    var dyreSession: StoredSession
    var dynafreshSession: StoredSession

    constructor (recentPaths: seq<Path>, dyreSession: StoredSession, dynafreshSession: StoredSession)
      ensures this.recentPaths == recentPaths
      ensures this.dyreSession == dyreSession && this.dynafreshSession == dynafreshSession
    {
      this.recentPaths := recentPaths;
      this.dyreSession := dyreSession;
      this.dynafreshSession := dynafreshSession;
    }
  }
}

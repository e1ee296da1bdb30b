/**
 * backend/src/indexer/event-indexer.ts: the registry of tracked event kinds,
 * the per-tracker resume cursor kept in the store, the polling step (still a
 * placeholder in the source) and the rule for the delay before the next poll.
 */
module EventIndexer {
  import opened Wrappers
  import opened Types
  import opened Store
  import Table
  import SuiClient

  /** The handler a tracker hands each page of events to. */
  datatype Handler =
    | HandleElectionCreated
    | HandleCandidateRegistered
    | HandleVoterRegistered
    | HandleVoteCast
    | HandleElectionEnded

  /** A tracker: its unique `type`, the Move event type it filters on, and its handler. */
  datatype EventTracker = EventTracker(kind: string, filter: string, callback: Handler)

  function Tracker(packageId: string, kind: string, callback: Handler): EventTracker {
    EventTracker(kind, SuiClient.GetEventType(packageId, kind), callback)
  }

  /** `EVENTS_TO_TRACK`: one tracker per contract event, each filtering on its own event type. */
  function EventsToTrack(packageId: string): (trackers: seq<EventTracker>)
    ensures |trackers| == 5
    ensures forall i :: 0 <= i < |trackers| ==>
      trackers[i].filter == SuiClient.GetEventType(packageId, trackers[i].kind)
    ensures forall i, j :: 0 <= i < j < |trackers| ==> trackers[i].kind != trackers[j].kind
    ensures trackers[0].kind == "EventElectionCreated" && trackers[0].callback == HandleElectionCreated
    ensures trackers[1].kind == "EventCandidateRegistered" && trackers[1].callback == HandleCandidateRegistered
    ensures trackers[2].kind == "EventVoterRegistered" && trackers[2].callback == HandleVoterRegistered
    ensures trackers[3].kind == "EventVoteCast" && trackers[3].callback == HandleVoteCast
    ensures trackers[4].kind == "EventElectionEnded" && trackers[4].callback == HandleElectionEnded
  {
    [ Tracker(packageId, "EventElectionCreated", HandleElectionCreated),
      Tracker(packageId, "EventCandidateRegistered", HandleCandidateRegistered),
      Tracker(packageId, "EventVoterRegistered", HandleVoterRegistered),
      Tracker(packageId, "EventVoteCast", HandleVoteCast),
      Tracker(packageId, "EventElectionEnded", HandleElectionEnded) ]
  }

  /** No two trackers poll the same event type, so no event reaches two handlers. */
  lemma TrackerFiltersDistinct(packageId: string)
    ensures forall i, j :: 0 <= i < j < |EventsToTrack(packageId)| ==>
      EventsToTrack(packageId)[i].filter != EventsToTrack(packageId)[j].filter
  {
    var trackers := EventsToTrack(packageId);
    forall i, j | 0 <= i < j < |trackers| ensures trackers[i].filter != trackers[j].filter {
      SuiClient.EventTypeInjective(packageId, trackers[i].kind, trackers[j].kind);
    }
  }

  /** Every handler is wired to exactly one tracker. */
  lemma EachHandlerTrackedOnce(packageId: string, h: Handler)
    ensures exists i :: 0 <= i < |EventsToTrack(packageId)| && EventsToTrack(packageId)[i].callback == h
    ensures forall i, j :: 0 <= i < j < |EventsToTrack(packageId)| ==>
      EventsToTrack(packageId)[i].callback != EventsToTrack(packageId)[j].callback
  {
    var trackers := EventsToTrack(packageId);
    var i := match h
      case HandleElectionCreated => 0
      case HandleCandidateRegistered => 1
      case HandleVoterRegistered => 2
      case HandleVoteCast => 3
      case HandleElectionEnded => 4;
    assert trackers[i].callback == h;
  }

  /** `getLatestCursor`: the saved position of this tracker, `undefined` when none was saved. */
  function GetLatestCursor(cursors: seq<CursorRow>, tracker: EventTracker): (r: Option<EventId>)
    ensures r.Some? <==> tracker.kind in Table.Keys(cursors, CursorKey)
    ensures r.Some? ==> CursorRow(tracker.kind, r.value.txDigest, r.value.eventSeq) in cursors
    ensures Table.Unique(cursors, CursorKey) ==>
      forall row :: row in cursors && row.id == tracker.kind ==> r == Some(EventId(row.txDigest, row.eventSeq))
  {
    Table.UniqueSameKey(cursors, CursorKey, tracker.kind);
    match Table.Lookup(cursors, CursorKey, tracker.kind)
    case None => None
    case Some(row) => Some(EventId(row.txDigest, row.eventSeq))
  }

  /** The row `saveLatestCursor` writes: keyed by the tracker's `type`. */
  function CursorRowOf(tracker: EventTracker, cursor: EventId): CursorRow {
    CursorRow(tracker.kind, cursor.txDigest, cursor.eventSeq)
  }

  /** The cursor table after `saveLatestCursor(tracker, cursor)`. */
  function SavedCursors(cursors: seq<CursorRow>, tracker: EventTracker, cursor: EventId): seq<CursorRow> {
    Table.Upsert(cursors, CursorKey, CursorRowOf(tracker, cursor))
  }

  /**
   * `saveLatestCursor`: upsert this tracker's row; the cursor table stays one
   * row per tracker. `storeFails` stands for the upsert throwing: the promise
   * rejects (`saved` is false) and the table is left as it was.
   */
  method SaveLatestCursor(db: Database, tracker: EventTracker, cursor: EventId, storeFails: bool) returns (saved: bool)
    requires db.Valid()
    modifies db
    ensures db.Valid()
    ensures saved == !storeFails
    ensures db.cursors == if storeFails then old(db.cursors) else SavedCursors(old(db.cursors), tracker, cursor)
    ensures db.elections == old(db.elections) && db.results == old(db.results)
    ensures db.candidates == old(db.candidates) && db.voters == old(db.voters) && db.votes == old(db.votes)
  {
    if storeFails {
      return false;
    }
    db.cursors := Table.Upsert(db.cursors, CursorKey, CursorRowOf(tracker, cursor));
    return true;
  }

  /** What is saved is what is read back at the next start. */
  lemma CursorRoundTrip(cursors: seq<CursorRow>, tracker: EventTracker, cursor: EventId)
    ensures GetLatestCursor(SavedCursors(cursors, tracker, cursor), tracker) == Some(cursor)
  {
  }

  /** Saving one tracker's cursor leaves every other tracker's resume position alone. */
  lemma CursorOthersUnchanged(cursors: seq<CursorRow>, tracker: EventTracker, cursor: EventId, other: EventTracker)
    requires other.kind != tracker.kind
    ensures GetLatestCursor(SavedCursors(cursors, tracker, cursor), other) == GetLatestCursor(cursors, other)
  {
  }

  /** Two saves for one tracker leave the table as the second alone would. */
  lemma CursorLastWriteWins(cursors: seq<CursorRow>, tracker: EventTracker, first: EventId, second: EventId)
    ensures SavedCursors(SavedCursors(cursors, tracker, first), tracker, second)
         == SavedCursors(cursors, tracker, second)
  {
    Table.UpsertTwice(cursors, CursorKey, CursorRowOf(tracker, first), CursorRowOf(tracker, second));
  }

  /** The result of one polling step: the cursor to resume from and whether more pages wait. */
  datatype EventExecutionResult = EventExecutionResult(cursor: Option<EventId>, hasNextPage: bool)

  /**
   * `executeEventJob` as the source has it: a placeholder that fetches
   * nothing, hands the cursor back and reports no further page.
   */
  function ExecuteEventJob(tracker: EventTracker, cursor: Option<EventId>): (r: EventExecutionResult)
    ensures r.cursor == cursor && !r.hasNextPage
  {
    EventExecutionResult(cursor, false)
  }

  /** The delay before the next poll: none while pages remain (catch up), else the polling interval. */
  function NextPollDelay(hasNextPage: bool, pollingIntervalMs: nat): (delay: nat)
    ensures delay <= pollingIntervalMs
    ensures delay == 0 <==> hasNextPage || pollingIntervalMs == 0
    ensures !hasNextPage ==> delay == pollingIntervalMs
  {
    if hasNextPage then 0 else pollingIntervalMs
  }

  /** With the placeholder step the cursor never moves and every poll waits the full interval. */
  lemma PlaceholderPollsIdle(tracker: EventTracker, cursor: Option<EventId>, pollingIntervalMs: nat)
    ensures ExecuteEventJob(tracker, cursor).cursor == cursor
    ensures NextPollDelay(ExecuteEventJob(tracker, cursor).hasNextPage, pollingIntervalMs) == pollingIntervalMs
  {
  }

  /** A started listener: the tracker and the cursor its polling loop starts from. */
  datatype Listener = Listener(tracker: EventTracker, cursor: Option<EventId>)

  /**
   * `setupEventListeners`: for each tracker in registry order, read its saved
   * cursor and start its polling loop from there. Starting the loop (a timer)
   * is represented by the listener record. `failures` holds the registry
   * positions whose cursor read throws; the loop has no `catch`, so the first
   * such throw rejects the whole call (`failed`) and the trackers after it are
   * never started.
   */
  method SetupEventListeners(db: Database, packageId: string, failures: set<nat>) returns (listeners: seq<Listener>, failed: bool)
    ensures |listeners| <= |EventsToTrack(packageId)|
    ensures forall i :: 0 <= i < |listeners| ==>
      listeners[i] == Listener(EventsToTrack(packageId)[i], GetLatestCursor(db.cursors, EventsToTrack(packageId)[i]))
    ensures forall i :: 0 <= i < |listeners| ==> i !in failures
    ensures failed <==> |listeners| < |EventsToTrack(packageId)|
    ensures failed ==> |listeners| in failures
  {
    var trackers := EventsToTrack(packageId);
    listeners := [];
    for i := 0 to |trackers|
      invariant |listeners| == i
      invariant forall k :: 0 <= k < i ==>
        listeners[k] == Listener(trackers[k], GetLatestCursor(db.cursors, trackers[k]))
      invariant forall k :: 0 <= k < i ==> k !in failures
    {
      if i in failures {
        return listeners, true;
      }
      var cursor := GetLatestCursor(db.cursors, trackers[i]);
      listeners := listeners + [Listener(trackers[i], cursor)];
    }
    failed := false;
  }
}

/**
 * The handlers of election.ts: `handleElectionCreated` and
 * `handleElectionEnded`. Each walks its batch in order; per event it
 * validates the payload, checks the store and creates at most one row.
 * Every error inside an iteration is caught, so one event never stops the
 * batch. A store failure is an input: `failures` holds the batch positions
 * at which the store throws.
 */
module ElectionHandlers {
  import opened Wrappers
  import opened Types
  import Table
  import opened Store

  // ---------------------------------------------------------------------------
  // The shape both handlers share: check, then create
  // ---------------------------------------------------------------------------

  /**
   * One iteration: `row` is the row the event asks for (None when the
   * handler skips the event before touching the store). The row is created
   * unless the store fails or a row with its key already exists.
   */
  function CreateStep<R(==), K(==)>(t: seq<R>, row: Option<R>, keyOf: R -> K, storeFails: bool): seq<R> {
    if row.None? || storeFails || keyOf(row.value) in Table.Keys(t, keyOf) then t
    else t + [row.value]
  }

  /** A whole batch: `rows[i]` is the row of the event at batch position `base + i`. */
  function CreateMissing<R(==), K(==)>(t: seq<R>, rows: seq<Option<R>>, keyOf: R -> K, failures: set<nat>, base: nat): seq<R>
    decreases |rows|
  {
    if rows == [] then t
    else CreateMissing(CreateStep(t, rows[0], keyOf, base in failures), rows[1..], keyOf, failures, base + 1)
  }

  /** Existing rows are never touched, and every new row is the row of an event the store did not fail on. */
  lemma {:induction false} CreateMissingExtends<R, K>(t: seq<R>, rows: seq<Option<R>>, keyOf: R -> K, failures: set<nat>, base: nat)
    ensures t <= CreateMissing(t, rows, keyOf, failures, base)
    ensures var r := CreateMissing(t, rows, keyOf, failures, base);
      forall k :: |t| <= k < |r| ==>
        exists i :: 0 <= i < |rows| && base + i !in failures && rows[i] == Some(r[k])
    decreases |rows|
  {
    if rows != [] {
      var next := CreateStep(t, rows[0], keyOf, base in failures);
      var r := CreateMissing(t, rows, keyOf, failures, base);
      CreateMissingExtends(next, rows[1..], keyOf, failures, base + 1);
      forall k | |t| <= k < |r|
        ensures exists i :: 0 <= i < |rows| && base + i !in failures && rows[i] == Some(r[k])
      {
        if k < |next| {
          assert k == |t| && next == t + [rows[0].value];
          assert rows[0] == Some(r[k]);
        } else {
          var i :| 0 <= i < |rows[1..]| && base + 1 + i !in failures && rows[1..][i] == Some(r[k]);
          assert rows[i + 1] == Some(r[k]);
        }
      }
    }
  }

  lemma CreateMissingKeysGrow<R, K>(t: seq<R>, rows: seq<Option<R>>, keyOf: R -> K, failures: set<nat>, base: nat)
    ensures Table.Keys(t, keyOf) <= Table.Keys(CreateMissing(t, rows, keyOf, failures, base), keyOf)
  {
    var r := CreateMissing(t, rows, keyOf, failures, base);
    CreateMissingExtends(t, rows, keyOf, failures, base);
    assert r == t + r[|t|..];
    Table.KeysOfPrefix(t, r[|t|..], keyOf);
  }

  /** At most one row per key is kept. */
  lemma {:induction false} CreateMissingUnique<R, K>(t: seq<R>, rows: seq<Option<R>>, keyOf: R -> K, failures: set<nat>, base: nat)
    requires Table.Unique(t, keyOf)
    ensures Table.Unique(CreateMissing(t, rows, keyOf, failures, base), keyOf)
    decreases |rows|
  {
    if rows != [] {
      var next := CreateStep(t, rows[0], keyOf, base in failures);
      if next != t {
        Table.UniqueAppend(t, keyOf, rows[0].value);
      }
      CreateMissingUnique(next, rows[1..], keyOf, failures, base + 1);
    }
  }

  /** Every event the store did not fail on has a row with its key afterwards, whatever failed before it. */
  lemma {:induction false} CreateMissingCovers<R, K>(t: seq<R>, rows: seq<Option<R>>, keyOf: R -> K, failures: set<nat>, base: nat, i: nat)
    requires i < |rows| && rows[i].Some? && base + i !in failures
    ensures keyOf(rows[i].value) in Table.Keys(CreateMissing(t, rows, keyOf, failures, base), keyOf)
    decreases |rows|
  {
    var next := CreateStep(t, rows[0], keyOf, base in failures);
    if i == 0 {
      if next != t {
        Table.KeysAppend(t, keyOf, rows[0].value);
      }
      CreateMissingKeysGrow(next, rows[1..], keyOf, failures, base + 1);
    } else {
      assert rows[1..][i - 1] == rows[i];
      CreateMissingCovers(next, rows[1..], keyOf, failures, base + 1, i - 1);
    }
  }

  /** A batch whose every row is already present (or skipped) changes nothing. */
  lemma {:induction false} CreateMissingAbsorbs<R, K>(t: seq<R>, rows: seq<Option<R>>, keyOf: R -> K, failures: set<nat>, base: nat)
    requires forall i :: 0 <= i < |rows| ==> rows[i].None? || keyOf(rows[i].value) in Table.Keys(t, keyOf)
    ensures CreateMissing(t, rows, keyOf, failures, base) == t
    decreases |rows|
  {
    if rows != [] {
      assert CreateStep(t, rows[0], keyOf, base in failures) == t;
      assert forall i :: 0 <= i < |rows[1..]| ==> rows[1..][i] == rows[i + 1];
      CreateMissingAbsorbs(t, rows[1..], keyOf, failures, base + 1);
    }
  }

  /**
   * Once a batch has been applied on a healthy store, applying it again
   * changes nothing, even if the store fails during the replay.
   */
  lemma CreateMissingIdempotent<R, K>(t: seq<R>, rows: seq<Option<R>>, keyOf: R -> K, replayFailures: set<nat>, base: nat)
    ensures var once := CreateMissing(t, rows, keyOf, {}, base);
      CreateMissing(once, rows, keyOf, replayFailures, base) == once
  {
    var once := CreateMissing(t, rows, keyOf, {}, base);
    forall i | 0 <= i < |rows| && rows[i].Some?
      ensures keyOf(rows[i].value) in Table.Keys(once, keyOf)
    {
      CreateMissingCovers(t, rows, keyOf, {}, base, i);
    }
    CreateMissingAbsorbs(once, rows, keyOf, replayFailures, base);
  }

  /** Applying a batch is applying its first part, then the rest. */
  lemma {:induction false} CreateMissingConcat<R, K>(t: seq<R>, a: seq<Option<R>>, b: seq<Option<R>>, keyOf: R -> K, failures: set<nat>, base: nat)
    ensures CreateMissing(t, a + b, keyOf, failures, base)
         == CreateMissing(CreateMissing(t, a, keyOf, failures, base), b, keyOf, failures, base + |a|)
    decreases |a|
  {
    if a == [] {
      assert a + b == b;
    } else {
      assert (a + b)[0] == a[0];
      assert (a + b)[1..] == a[1..] + b;
      CreateMissingConcat(CreateStep(t, a[0], keyOf, base in failures), a[1..], b, keyOf, failures, base + 1);
    }
  }

  /**
   * Crash safety: when the process stopped after applying the first `k`
   * events but before saving the cursor, the whole page is fetched and
   * applied again; the result is that of one clean pass.
   */
  lemma CreateMissingReplay<R, K>(t: seq<R>, rows: seq<Option<R>>, keyOf: R -> K, base: nat, k: nat)
    requires k <= |rows|
    ensures CreateMissing(CreateMissing(t, rows[..k], keyOf, {}, base), rows, keyOf, {}, base)
         == CreateMissing(t, rows, keyOf, {}, base)
  {
    var a, b := rows[..k], rows[k..];
    assert rows == a + b;
    var partial := CreateMissing(t, a, keyOf, {}, base);
    CreateMissingConcat(partial, a, b, keyOf, {}, base);
    CreateMissingIdempotent(t, a, keyOf, {}, base);
    CreateMissingConcat(t, a, b, keyOf, {}, base);
  }

  /**
   * First occurrence wins: when a key is new to the table, the row kept for
   * it is the one from the first event with that key the store did not fail on.
   */
  lemma {:induction false} CreateMissingFirstWins<R, K>(t: seq<R>, rows: seq<Option<R>>, keyOf: R -> K, failures: set<nat>, base: nat, i: nat, row: R)
    requires i < |rows| && rows[i] == Some(row) && base + i !in failures
    requires keyOf(row) !in Table.Keys(t, keyOf)
    requires forall j :: 0 <= j < i ==> base + j in failures || rows[j].None? || keyOf(rows[j].value) != keyOf(row)
    ensures Table.Lookup(CreateMissing(t, rows, keyOf, failures, base), keyOf, keyOf(row)) == Some(row)
    decreases |rows|
  {
    var next := CreateStep(t, rows[0], keyOf, base in failures);
    if i == 0 {
      assert next == t + [row];
      Table.LookupAppendFresh(t, keyOf, row);
      var r := CreateMissing(next, rows[1..], keyOf, failures, base + 1);
      CreateMissingExtends(next, rows[1..], keyOf, failures, base + 1);
      assert r == next + r[|next|..];
      Table.KeysAppend(t, keyOf, row);
      Table.LookupStable(next, r[|next|..], keyOf, keyOf(row));
    } else {
      if next != t {
        Table.KeysAppend(t, keyOf, rows[0].value);
      }
      assert keyOf(row) !in Table.Keys(next, keyOf);
      var rest := rows[1..];
      assert rest[i - 1] == rows[i];
      forall j | 0 <= j < i - 1
        ensures base + 1 + j in failures || rest[j].None? || keyOf(rest[j].value) != keyOf(row)
      {
        assert rest[j] == rows[j + 1];
      }
      CreateMissingFirstWins(next, rest, keyOf, failures, base + 1, i - 1, row);
    }
  }

  /** A row already in the table is what a lookup of its key still finds afterwards. */
  lemma CreateMissingKeepsExisting<R, K>(t: seq<R>, rows: seq<Option<R>>, keyOf: R -> K, failures: set<nat>, base: nat, k: K)
    requires k in Table.Keys(t, keyOf)
    ensures Table.Lookup(CreateMissing(t, rows, keyOf, failures, base), keyOf, k) == Table.Lookup(t, keyOf, k)
  {
    var r := CreateMissing(t, rows, keyOf, failures, base);
    CreateMissingExtends(t, rows, keyOf, failures, base);
    assert r == t + r[|t|..];
    Table.LookupStable(t, r[|t|..], keyOf, k);
  }

  // ---------------------------------------------------------------------------
  // handleElectionCreated
  // ---------------------------------------------------------------------------

  /**
   * The election an `EventElectionCreated` asks for, or None when the
   * handler skips it: no payload, or a falsy election id, name or creator.
   */
  function ElectionRowOf(ev: SuiEvent<ElectionCreatedJson>): (r: Option<Election>)
    ensures r.Some? <==>
      && ev.parsedJson.Some?
      && Truthy(ev.parsedJson.value.electionId)
      && Truthy(ev.parsedJson.value.name)
      && Truthy(ev.parsedJson.value.creator)
    ensures r.Some? ==>
      var p := ev.parsedJson.value;
      && r.value.electionId == p.electionId.value
      && r.value.name == p.name.value
      && r.value.creator == p.creator.value
      && r.value.txDigest == (if ev.id.Some? then ev.id.value.txDigest else "unknown")
  {
    match ev.parsedJson
    case None => None
    case Some(p) =>
      if !Truthy(p.electionId) || !Truthy(p.name) || !Truthy(p.creator) then None
      else Some(Election(p.electionId.value, p.name.value, p.creator.value, TxDigestOrUnknown(ev)))
  }

  function CreatedRows(events: seq<SuiEvent<ElectionCreatedJson>>): (rows: seq<Option<Election>>)
    ensures |rows| == |events|
    ensures forall i :: 0 <= i < |events| ==> rows[i] == ElectionRowOf(events[i])
  {
    seq(|events|, i requires 0 <= i < |events| => ElectionRowOf(events[i]))
  }

  /** The elections table after `handleElectionCreated` has walked `events`. */
  function ElectionsAfterCreated(t: seq<Election>, events: seq<SuiEvent<ElectionCreatedJson>>, failures: set<nat>): seq<Election> {
    CreateMissing(t, CreatedRows(events), ElectionKey, failures, 0)
  }

  /**
   * Existing elections are untouched, each stays the only row of its id,
   * and every new row carries the id, name, creator and digest of an event
   * of the batch that passed validation.
   */
  lemma ElectionsCreatedFromEvents(t: seq<Election>, events: seq<SuiEvent<ElectionCreatedJson>>, failures: set<nat>)
    requires Table.Unique(t, ElectionKey)
    ensures var r := ElectionsAfterCreated(t, events, failures);
      && t <= r
      && Table.Unique(r, ElectionKey)
      && forall k :: |t| <= k < |r| ==>
           exists i :: 0 <= i < |events| && i !in failures && ElectionRowOf(events[i]) == Some(r[k])
  {
    var rows := CreatedRows(events);
    var r := ElectionsAfterCreated(t, events, failures);
    CreateMissingExtends(t, rows, ElectionKey, failures, 0);
    CreateMissingUnique(t, rows, ElectionKey, failures, 0);
    forall k | |t| <= k < |r|
      ensures exists i :: 0 <= i < |events| && i !in failures && ElectionRowOf(events[i]) == Some(r[k])
    {
      var i :| 0 <= i < |rows| && 0 + i !in failures && rows[i] == Some(r[k]);
      assert ElectionRowOf(events[i]) == Some(r[k]);
    }
  }

  /**
   * An event that passes validation and on which the store does not fail
   * leaves its election in the table, whatever failed earlier in the batch.
   */
  lemma ElectionCreatedCovers(t: seq<Election>, events: seq<SuiEvent<ElectionCreatedJson>>, failures: set<nat>, i: nat)
    requires i < |events| && i !in failures && ElectionRowOf(events[i]).Some?
    ensures events[i].parsedJson.value.electionId.value in Table.Keys(ElectionsAfterCreated(t, events, failures), ElectionKey)
  {
    CreateMissingCovers(t, CreatedRows(events), ElectionKey, failures, 0, i);
  }

  /** Applying a batch twice gives the same table as applying it once. */
  lemma ElectionsCreatedIdempotent(t: seq<Election>, events: seq<SuiEvent<ElectionCreatedJson>>, replayFailures: set<nat>)
    ensures var once := ElectionsAfterCreated(t, events, {});
      ElectionsAfterCreated(once, events, replayFailures) == once
  {
    CreateMissingIdempotent(t, CreatedRows(events), ElectionKey, replayFailures, 0);
  }

  /** Replaying a page after a crash part-way through it gives the table of one clean pass. */
  lemma ElectionsCreatedReplay(t: seq<Election>, events: seq<SuiEvent<ElectionCreatedJson>>, k: nat)
    requires k <= |events|
    ensures ElectionsAfterCreated(ElectionsAfterCreated(t, events[..k], {}), events, {})
         == ElectionsAfterCreated(t, events, {})
  {
    assert CreatedRows(events[..k]) == CreatedRows(events)[..k];
    CreateMissingReplay(t, CreatedRows(events), ElectionKey, 0, k);
  }

  /**
   * Within one batch, of two events with the same election id only the
   * first one (that passed validation and the store) is stored.
   */
  lemma ElectionCreatedFirstWins(t: seq<Election>, events: seq<SuiEvent<ElectionCreatedJson>>, failures: set<nat>, i: nat, e: Election)
    requires i < |events| && i !in failures && ElectionRowOf(events[i]) == Some(e)
    requires e.electionId !in Table.Keys(t, ElectionKey)
    requires forall j :: 0 <= j < i ==>
      j in failures || ElectionRowOf(events[j]).None? || ElectionRowOf(events[j]).value.electionId != e.electionId
    ensures Table.Lookup(ElectionsAfterCreated(t, events, failures), ElectionKey, e.electionId) == Some(e)
  {
    var rows := CreatedRows(events);
    forall j | 0 <= j < i
      ensures 0 + j in failures || rows[j].None? || ElectionKey(rows[j].value) != ElectionKey(e)
    {
    }
    CreateMissingFirstWins(t, rows, ElectionKey, failures, 0, i, e);
  }

  /** An election already stored is left exactly as it was. */
  lemma ElectionCreatedKeepsExisting(t: seq<Election>, events: seq<SuiEvent<ElectionCreatedJson>>, failures: set<nat>, electionId: string)
    requires electionId in Table.Keys(t, ElectionKey)
    ensures Table.Lookup(ElectionsAfterCreated(t, events, failures), ElectionKey, electionId)
         == Table.Lookup(t, ElectionKey, electionId)
  {
    CreateMissingKeepsExisting(t, CreatedRows(events), ElectionKey, failures, 0, electionId);
  }

  /** The batch loop of `handleElectionCreated`. */
  method HandleElectionCreated(db: Database, events: seq<SuiEvent<ElectionCreatedJson>>, failures: set<nat>)
    requires db.Valid()
    modifies db
    ensures db.Valid()
    ensures db.elections == ElectionsAfterCreated(old(db.elections), events, failures)
    ensures db.Snap() == old(db.Snap()).(elections := ElectionsAfterCreated(old(db.elections), events, failures))
    ensures db.results == old(db.results) && db.candidates == old(db.candidates)
    ensures db.voters == old(db.voters) && db.votes == old(db.votes) && db.cursors == old(db.cursors)
  {
    ghost var rows := CreatedRows(events);
    for i := 0 to |events|
      invariant db.Valid()
      invariant CreateMissing(db.elections, rows[i..], ElectionKey, failures, i) == ElectionsAfterCreated(old(db.elections), events, failures)
      invariant db.results == old(db.results) && db.candidates == old(db.candidates)
      invariant db.voters == old(db.voters) && db.votes == old(db.votes) && db.cursors == old(db.cursors)
    {
      assert rows[i..][0] == ElectionRowOf(events[i]) && rows[i..][1..] == rows[i + 1..];
      var event := events[i];
      if event.parsedJson.None? {
        continue;
      }
      var parsedEvent := event.parsedJson.value;
      if !Truthy(parsedEvent.electionId) || !Truthy(parsedEvent.name) || !Truthy(parsedEvent.creator) {
        continue;
      }
      var electionId := parsedEvent.electionId.value;
      var creatorAddress := parsedEvent.creator.value;
      var electionName := parsedEvent.name.value;
      var txDigest := TxDigestOrUnknown(event);
      if i in failures {
        // the store threw in findUnique or create: caught, logged, next event
        continue;
      }
      var existingElection := Table.Lookup(db.elections, ElectionKey, electionId);
      if existingElection.Some? {
        continue;
      }
      var created := Election(electionId, electionName, creatorAddress, txDigest);
      Table.UniqueAppend(db.elections, ElectionKey, created);
      db.elections := db.elections + [created];
    }
  }

  // ---------------------------------------------------------------------------
  // handleElectionEnded
  // ---------------------------------------------------------------------------

  /** `Number(total_votes ?? 0)`: None stands for NaN. */
  function TotalVotesOf(p: ElectionEndedJson): (n: Option<nat>)
    ensures p.totalVotes.None? ==> n == Some(0)
    ensures p.totalVotes.Some? ==> n == NumberOf(p.totalVotes.value)
  {
    match p.totalVotes
    case None => Some(0)
    case Some(s) => NumberOf(s)
  }

  /**
   * The result row an `EventElectionEnded` asks for, or None when the event
   * cannot produce one whatever the store holds: no payload, a falsy
   * election id, or a vote total that converts to NaN (the store rejects it
   * on create and the catch drops the event).
   */
  function ResultRowOf(ev: SuiEvent<ElectionEndedJson>): (r: Option<ElectionResult>)
    ensures r.Some? <==>
      && ev.parsedJson.Some?
      && Truthy(ev.parsedJson.value.electionId)
      && TotalVotesOf(ev.parsedJson.value).Some?
    ensures r.Some? ==>
      var p := ev.parsedJson.value;
      && r.value.electionId == p.electionId.value
      && (r.value.winner.None? <==> !Truthy(p.winner))
      && (Truthy(p.winner) ==> r.value.winner == p.winner)
      && (p.totalVotes.None? ==> r.value.totalVotes == 0)
      && TotalVotesOf(p) == Some(r.value.totalVotes)
      && r.value.txDigest == (if ev.id.Some? then ev.id.value.txDigest else "unknown")
  {
    match ev.parsedJson
    case None => None
    case Some(p) =>
      if !Truthy(p.electionId) then None
      else
        var winnerAddress := if Truthy(p.winner) then p.winner else None;
        match TotalVotesOf(p)
        case None => None
        case Some(totalVotes) =>
          Some(ElectionResult(p.electionId.value, winnerAddress, totalVotes, TxDigestOrUnknown(ev)))
  }

  /** The row, kept only when its election is in the store (checked before the duplicate check). */
  function EndedRowOf(elections: seq<Election>, ev: SuiEvent<ElectionEndedJson>): (r: Option<ElectionResult>)
    ensures r.Some? <==> ResultRowOf(ev).Some? && ResultRowOf(ev).value.electionId in Table.Keys(elections, ElectionKey)
    ensures r.Some? ==> r == ResultRowOf(ev)
  {
    match ResultRowOf(ev)
    case None => None
    case Some(row) => if row.electionId in Table.Keys(elections, ElectionKey) then Some(row) else None
  }

  function EndedRows(elections: seq<Election>, events: seq<SuiEvent<ElectionEndedJson>>): (rows: seq<Option<ElectionResult>>)
    ensures |rows| == |events|
    ensures forall i :: 0 <= i < |events| ==> rows[i] == EndedRowOf(elections, events[i])
  {
    seq(|events|, i requires 0 <= i < |events| => EndedRowOf(elections, events[i]))
  }

  /** The results table after `handleElectionEnded` has walked `events`; it reads, never writes, `elections`. */
  function ResultsAfterEnded(elections: seq<Election>, t: seq<ElectionResult>, events: seq<SuiEvent<ElectionEndedJson>>, failures: set<nat>): seq<ElectionResult> {
    CreateMissing(t, EndedRows(elections, events), ResultKey, failures, 0)
  }

  /** Every result belongs to an election that is in the store. */
  ghost predicate ResultsHaveElections(elections: seq<Election>, results: seq<ElectionResult>) {
    forall k :: 0 <= k < |results| ==> results[k].electionId in Table.Keys(elections, ElectionKey)
  }

  /** No stored result holds an empty winner: an empty winner is stored as null. */
  ghost predicate NoEmptyWinner(results: seq<ElectionResult>) {
    forall k :: 0 <= k < |results| ==> results[k].winner != Some("")
  }

  /**
   * Existing results are untouched and each election keeps at most one;
   * every new result belongs to an election in the store, holds no empty
   * winner, and is the row of an event of the batch.
   */
  lemma ResultsEndedFromEvents(elections: seq<Election>, t: seq<ElectionResult>, events: seq<SuiEvent<ElectionEndedJson>>, failures: set<nat>)
    requires Table.Unique(t, ResultKey)
    ensures var r := ResultsAfterEnded(elections, t, events, failures);
      && t <= r
      && Table.Unique(r, ResultKey)
      && (ResultsHaveElections(elections, t) ==> ResultsHaveElections(elections, r))
      && (NoEmptyWinner(t) ==> NoEmptyWinner(r))
      && forall k :: |t| <= k < |r| ==>
           exists i :: 0 <= i < |events| && i !in failures && ResultRowOf(events[i]) == Some(r[k])
  {
    var rows := EndedRows(elections, events);
    var r := ResultsAfterEnded(elections, t, events, failures);
    CreateMissingExtends(t, rows, ResultKey, failures, 0);
    CreateMissingUnique(t, rows, ResultKey, failures, 0);
    forall k | |t| <= k < |r|
      ensures r[k].electionId in Table.Keys(elections, ElectionKey) && r[k].winner != Some("")
      ensures exists i :: 0 <= i < |events| && i !in failures && ResultRowOf(events[i]) == Some(r[k])
    {
      var i :| 0 <= i < |rows| && 0 + i !in failures && rows[i] == Some(r[k]);
      assert ResultRowOf(events[i]) == Some(r[k]);
    }
  }

  /** An ElectionEnded for an election that is not in the store creates no result for it. */
  lemma EndedWithoutElectionSkipped(elections: seq<Election>, t: seq<ElectionResult>, events: seq<SuiEvent<ElectionEndedJson>>, failures: set<nat>, electionId: string)
    requires electionId !in Table.Keys(elections, ElectionKey) && electionId !in Table.Keys(t, ResultKey)
    ensures electionId !in Table.Keys(ResultsAfterEnded(elections, t, events, failures), ResultKey)
  {
    var rows := EndedRows(elections, events);
    var r := ResultsAfterEnded(elections, t, events, failures);
    CreateMissingExtends(t, rows, ResultKey, failures, 0);
  }

  /** A second ElectionEnded for an election that already has a result is a no-op for it. */
  lemma EndedKeepsExistingResult(elections: seq<Election>, t: seq<ElectionResult>, events: seq<SuiEvent<ElectionEndedJson>>, failures: set<nat>, electionId: string)
    requires electionId in Table.Keys(t, ResultKey)
    ensures Table.Lookup(ResultsAfterEnded(elections, t, events, failures), ResultKey, electionId)
         == Table.Lookup(t, ResultKey, electionId)
  {
    CreateMissingKeepsExisting(t, EndedRows(elections, events), ResultKey, failures, 0, electionId);
  }

  /**
   * An ElectionEnded that passes validation, whose election is stored and on
   * which the store does not fail, leaves a result for that election,
   * whatever failed earlier in the batch.
   */
  lemma ElectionEndedCovers(elections: seq<Election>, t: seq<ElectionResult>, events: seq<SuiEvent<ElectionEndedJson>>, failures: set<nat>, i: nat)
    requires i < |events| && i !in failures && ResultRowOf(events[i]).Some?
    requires ResultRowOf(events[i]).value.electionId in Table.Keys(elections, ElectionKey)
    ensures events[i].parsedJson.value.electionId.value in Table.Keys(ResultsAfterEnded(elections, t, events, failures), ResultKey)
  {
    CreateMissingCovers(t, EndedRows(elections, events), ResultKey, failures, 0, i);
  }

  /** Applying a batch twice gives the same results table as applying it once. */
  lemma ResultsEndedIdempotent(elections: seq<Election>, t: seq<ElectionResult>, events: seq<SuiEvent<ElectionEndedJson>>, replayFailures: set<nat>)
    ensures var once := ResultsAfterEnded(elections, t, events, {});
      ResultsAfterEnded(elections, once, events, replayFailures) == once
  {
    CreateMissingIdempotent(t, EndedRows(elections, events), ResultKey, replayFailures, 0);
  }

  /** Replaying a page after a crash part-way through it gives the results of one clean pass. */
  lemma ResultsEndedReplay(elections: seq<Election>, t: seq<ElectionResult>, events: seq<SuiEvent<ElectionEndedJson>>, k: nat)
    requires k <= |events|
    ensures ResultsAfterEnded(elections, ResultsAfterEnded(elections, t, events[..k], {}), events, {})
         == ResultsAfterEnded(elections, t, events, {})
  {
    assert EndedRows(elections, events[..k]) == EndedRows(elections, events)[..k];
    CreateMissingReplay(t, EndedRows(elections, events), ResultKey, 0, k);
  }

  /** The batch loop of `handleElectionEnded`. It never modifies the elections table. */
  method HandleElectionEnded(db: Database, events: seq<SuiEvent<ElectionEndedJson>>, failures: set<nat>)
    requires db.Valid()
    modifies db
    ensures db.Valid()
    ensures db.results == ResultsAfterEnded(old(db.elections), old(db.results), events, failures)
    ensures db.Snap() == old(db.Snap()).(results := ResultsAfterEnded(old(db.elections), old(db.results), events, failures))
    ensures db.elections == old(db.elections) && db.candidates == old(db.candidates)
    ensures db.voters == old(db.voters) && db.votes == old(db.votes) && db.cursors == old(db.cursors)
  {
    ghost var rows := EndedRows(db.elections, events);
    for i := 0 to |events|
      invariant db.Valid()
      invariant CreateMissing(db.results, rows[i..], ResultKey, failures, i)
             == ResultsAfterEnded(old(db.elections), old(db.results), events, failures)
      invariant db.elections == old(db.elections) && db.candidates == old(db.candidates)
      invariant db.voters == old(db.voters) && db.votes == old(db.votes) && db.cursors == old(db.cursors)
    {
      assert rows[i..][0] == EndedRowOf(db.elections, events[i]) && rows[i..][1..] == rows[i + 1..];
      var event := events[i];
      if event.parsedJson.None? {
        continue;
      }
      var parsedEvent := event.parsedJson.value;
      if !Truthy(parsedEvent.electionId) {
        continue;
      }
      var electionId := parsedEvent.electionId.value;
      var totalVotes := TotalVotesOf(parsedEvent);
      var winnerAddress := if Truthy(parsedEvent.winner) then parsedEvent.winner else None;
      var txDigest := TxDigestOrUnknown(event);
      if i in failures {
        // the store threw: caught, logged, next event
        continue;
      }
      var election := Table.Lookup(db.elections, ElectionKey, electionId);
      if election.None? {
        continue;
      }
      var existingResult := Table.Lookup(db.results, ResultKey, electionId);
      if existingResult.Some? {
        continue;
      }
      if totalVotes.None? {
        // create rejects a NaN vote total: caught, logged, next event
        continue;
      }
      var created := ElectionResult(electionId, winnerAddress, totalVotes.value, txDigest);
      Table.UniqueAppend(db.results, ResultKey, created);
      db.results := db.results + [created];
    }
  }
}

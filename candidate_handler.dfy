/**
 * `handleCandidateRegistered` of backend/src/indexer/handlers/candidate.ts:
 * one upsert per event, in batch order, keyed by (election id, candidate
 * address), with an empty update branch. Nothing is caught: the first event
 * that throws ends the batch, leaving the earlier upserts applied and the
 * later ones not. The handler does not look at the elections table.
 */
module CandidateHandler {
  import opened Wrappers
  import opened Types
  import Table
  import opened Store

  /** Why the handler throws. */
  datatype HandlerError =
    | MissingPayload   // the payload is read (`data.candidate`) while absent
    | MissingEventId   // `event.id.txDigest` is read while the id is absent
    | InvalidArgument  // the store rejects an upsert whose election id or candidate is undefined
    | StoreFailure     // the upsert itself fails in the store

  /** The row the upsert creates for `ev` when absent, or what evaluating its arguments throws. */
  function CandidateRowOf(ev: SuiEvent<CandidateRegisteredJson>): (r: Result<Candidate, HandlerError>)
    ensures ev.parsedJson.None? ==> r == Failure(MissingPayload)
    ensures r.Success? <==>
      ev.parsedJson.Some? && ev.id.Some? && ev.parsedJson.value.electionId.Some? && ev.parsedJson.value.candidate.Some?
    ensures r.Success? ==>
      && r.value.electionId == ev.parsedJson.value.electionId.value
      && r.value.candidateAddress == ev.parsedJson.value.candidate.value
      && r.value.txDigest == ev.id.value.txDigest
  {
    match ev.parsedJson
    case None => Failure(MissingPayload)
    case Some(data) =>
      match ev.id
      case None => Failure(MissingEventId)
      case Some(id) =>
        if data.electionId.None? || data.candidate.None? then Failure(InvalidArgument)
        else Success(Candidate(data.electionId.value, data.candidate.value, id.txDigest))
  }

  /** One upsert: create when the pair is absent, leave the row as it is when present. */
  function UpsertStep(t: seq<Candidate>, ev: SuiEvent<CandidateRegisteredJson>, storeFails: bool): (r: Result<seq<Candidate>, HandlerError>)
    ensures CandidateRowOf(ev).Failure? ==> r == Failure(CandidateRowOf(ev).error)
    ensures CandidateRowOf(ev).Success? && storeFails ==> r == Failure(StoreFailure)
    ensures r.Success? <==> CandidateRowOf(ev).Success? && !storeFails
    ensures r.Success? ==>
      var row := CandidateRowOf(ev).value;
      && (CandidateKey(row) in Table.Keys(t, CandidateKey) ==> r.value == t)
      && (CandidateKey(row) !in Table.Keys(t, CandidateKey) ==> r.value == t + [row])
      && Table.Lookup(r.value, CandidateKey, CandidateKey(row)).Some?
  {
    var row :- CandidateRowOf(ev);
    if storeFails then Failure(StoreFailure)
    else if CandidateKey(row) in Table.Keys(t, CandidateKey) then Success(t)
    else Success(t + [row])
  }

  /** The candidates table when the handler returns or throws, and what it threw. */
  datatype Outcome = Outcome(table: seq<Candidate>, error: Option<HandlerError>)

  /** The batch from position `base` on; `failures` holds the positions at which the store fails. */
  function UpsertAll(t: seq<Candidate>, events: seq<SuiEvent<CandidateRegisteredJson>>, failures: set<nat>, base: nat): Outcome
    decreases |events|
  {
    if events == [] then Outcome(t, None)
    else
      match UpsertStep(t, events[0], base in failures)
      case Failure(e) => Outcome(t, Some(e))
      case Success(next) => UpsertAll(next, events[1..], failures, base + 1)
  }

  function CandidatesAfterRegistered(t: seq<Candidate>, events: seq<SuiEvent<CandidateRegisteredJson>>, failures: set<nat>): Outcome {
    UpsertAll(t, events, failures, 0)
  }

  /** The (election, candidate) key of an event whose arguments evaluate without throwing. */
  function KeyOf(ev: SuiEvent<CandidateRegisteredJson>): (string, string)
    requires CandidateRowOf(ev).Success?
  {
    CandidateKey(CandidateRowOf(ev).value)
  }

  /** No event up to and including `i` throws while its arguments are evaluated. */
  ghost predicate WellFormedUpTo(events: seq<SuiEvent<CandidateRegisteredJson>>, i: int) {
    forall j :: 0 <= j <= i && j < |events| ==> CandidateRowOf(events[j]).Success?
  }

  /**
   * Rows are only ever appended: every existing row, with its original
   * digest, is kept; each new row comes from an event of the batch; and at
   * most one row per (election, candidate) pair is kept.
   */
  lemma {:induction false} UpsertAllExtends(t: seq<Candidate>, events: seq<SuiEvent<CandidateRegisteredJson>>, failures: set<nat>, base: nat)
    ensures var r := UpsertAll(t, events, failures, base).table;
      && t <= r
      && (Table.Unique(t, CandidateKey) ==> Table.Unique(r, CandidateKey))
      && forall k :: |t| <= k < |r| ==>
           exists i :: 0 <= i < |events| && CandidateRowOf(events[i]) == Success(r[k])
    decreases |events|
  {
    if events != [] {
      match UpsertStep(t, events[0], base in failures)
      case Failure(_) =>
      case Success(next) =>
        var r := UpsertAll(t, events, failures, base).table;
        UpsertAllExtends(next, events[1..], failures, base + 1);
        if next != t && Table.Unique(t, CandidateKey) {
          Table.UniqueAppend(t, CandidateKey, CandidateRowOf(events[0]).value);
        }
        forall k | |t| <= k < |r|
          ensures exists i :: 0 <= i < |events| && CandidateRowOf(events[i]) == Success(r[k])
        {
          if k < |next| {
            assert CandidateRowOf(events[0]) == Success(r[k]);
          } else {
            var i :| 0 <= i < |events[1..]| && CandidateRowOf(events[1..][i]) == Success(r[k]);
            assert events[1..][i] == events[i + 1];
          }
        }
    }
  }

  /**
   * When the handler returns normally, every (election, candidate) pair of
   * the batch has a row: with unique keys, exactly one.
   */
  lemma {:induction false} UpsertAllCovers(t: seq<Candidate>, events: seq<SuiEvent<CandidateRegisteredJson>>, failures: set<nat>, base: nat)
    requires UpsertAll(t, events, failures, base).error.None?
    ensures forall i :: 0 <= i < |events| ==> CandidateRowOf(events[i]).Success?
    ensures forall i :: 0 <= i < |events| ==> KeyOf(events[i]) in Table.Keys(UpsertAll(t, events, failures, base).table, CandidateKey)
    decreases |events|
  {
    if events != [] {
      var next := UpsertStep(t, events[0], base in failures).value;
      var r := UpsertAll(t, events, failures, base).table;
      UpsertAllCovers(next, events[1..], failures, base + 1);
      UpsertAllExtends(next, events[1..], failures, base + 1);
      assert r == next + r[|next|..];
      Table.KeysOfPrefix(next, r[|next|..], CandidateKey);
      if next != t {
        Table.KeysAppend(t, CandidateKey, CandidateRowOf(events[0]).value);
      }
      forall i | 0 < i < |events|
        ensures CandidateRowOf(events[i]).Success? && KeyOf(events[i]) in Table.Keys(r, CandidateKey)
      {
        assert events[1..][i - 1] == events[i];
      }
    }
  }

  /**
   * On a healthy store, every event of the batch up to the first one that
   * throws has its pair in the table afterwards.
   */
  lemma {:induction false} UpsertAllCoversPrefix(t: seq<Candidate>, events: seq<SuiEvent<CandidateRegisteredJson>>, base: nat, i: nat)
    requires i < |events| && WellFormedUpTo(events, i)
    ensures KeyOf(events[i]) in Table.Keys(UpsertAll(t, events, {}, base).table, CandidateKey)
    decreases |events|
  {
    var next := UpsertStep(t, events[0], false).value;
    if i == 0 {
      if next != t {
        Table.KeysAppend(t, CandidateKey, CandidateRowOf(events[0]).value);
      }
      var r := UpsertAll(next, events[1..], {}, base + 1).table;
      UpsertAllExtends(next, events[1..], {}, base + 1);
      assert r == next + r[|next|..];
      Table.KeysOfPrefix(next, r[|next|..], CandidateKey);
    } else {
      assert events[1..][i - 1] == events[i];
      assert WellFormedUpTo(events[1..], i - 1) by {
        forall j | 0 <= j <= i - 1 && j < |events[1..]| ensures CandidateRowOf(events[1..][j]).Success? {
          assert events[1..][j] == events[j + 1];
        }
      }
      UpsertAllCoversPrefix(next, events[1..], base + 1, i - 1);
    }
  }

  /** A batch whose every pair before the first throwing event is already present leaves the table as it is. */
  lemma {:induction false} UpsertAllAbsorbs(t: seq<Candidate>, events: seq<SuiEvent<CandidateRegisteredJson>>, failures: set<nat>, base: nat)
    requires forall i :: 0 <= i < |events| && WellFormedUpTo(events, i) ==> KeyOf(events[i]) in Table.Keys(t, CandidateKey)
    ensures UpsertAll(t, events, failures, base).table == t
    decreases |events|
  {
    if events != [] && UpsertStep(t, events[0], base in failures).Success? {
      assert WellFormedUpTo(events, 0);
      assert UpsertStep(t, events[0], base in failures) == Success(t);
      forall i | 0 <= i < |events[1..]| && WellFormedUpTo(events[1..], i)
        ensures KeyOf(events[1..][i]) in Table.Keys(t, CandidateKey)
      {
        assert events[1..][i] == events[i + 1];
        assert WellFormedUpTo(events, i + 1) by {
          forall j | 0 <= j <= i + 1 && j < |events| ensures CandidateRowOf(events[j]).Success? {
            if j > 0 { assert events[j] == events[1..][j - 1]; }
          }
        }
      }
      UpsertAllAbsorbs(t, events[1..], failures, base + 1);
    }
  }

  /**
   * Applying the same batch twice on a healthy store yields the candidate
   * table of applying it once (the first pass may stop at a malformed event),
   * even if the store fails during the replay.
   */
  lemma CandidatesIdempotent(t: seq<Candidate>, events: seq<SuiEvent<CandidateRegisteredJson>>, replayFailures: set<nat>)
    ensures var once := CandidatesAfterRegistered(t, events, {}).table;
      CandidatesAfterRegistered(once, events, replayFailures).table == once
  {
    var once := CandidatesAfterRegistered(t, events, {}).table;
    forall i | 0 <= i < |events| && WellFormedUpTo(events, i)
      ensures KeyOf(events[i]) in Table.Keys(once, CandidateKey)
    {
      UpsertAllCoversPrefix(t, events, 0, i);
    }
    UpsertAllAbsorbs(once, events, replayFailures, 0);
  }

  /**
   * After a normal return every (election, candidate) pair of the batch has
   * exactly one row, and rows already present are unchanged (a duplicate
   * pair keeps its original digest).
   */
  lemma CandidatesOnePerPair(t: seq<Candidate>, events: seq<SuiEvent<CandidateRegisteredJson>>, failures: set<nat>)
    requires Table.Unique(t, CandidateKey)
    requires CandidatesAfterRegistered(t, events, failures).error.None?
    ensures var r := CandidatesAfterRegistered(t, events, failures).table;
      && Table.Unique(r, CandidateKey)
      && (forall i :: 0 <= i < |events| ==>
            CandidateRowOf(events[i]).Success? && KeyOf(events[i]) in Table.Keys(r, CandidateKey))
      && forall k :: k in Table.Keys(t, CandidateKey) ==> Table.Lookup(r, CandidateKey, k) == Table.Lookup(t, CandidateKey, k)
  {
    var r := CandidatesAfterRegistered(t, events, failures).table;
    UpsertAllExtends(t, events, failures, 0);
    UpsertAllCovers(t, events, failures, 0);
    assert r == t + r[|t|..];
    forall k | k in Table.Keys(t, CandidateKey)
      ensures Table.Lookup(r, CandidateKey, k) == Table.Lookup(t, CandidateKey, k)
    {
      Table.LookupStable(t, r[|t|..], CandidateKey, k);
    }
  }

  /** What a lookup finds before the rest of a batch, it still finds after it. */
  lemma UpsertAllKeeps(t: seq<Candidate>, events: seq<SuiEvent<CandidateRegisteredJson>>, failures: set<nat>, base: nat, k: (string, string))
    requires k in Table.Keys(t, CandidateKey)
    ensures Table.Lookup(UpsertAll(t, events, failures, base).table, CandidateKey, k) == Table.Lookup(t, CandidateKey, k)
  {
    var r := UpsertAll(t, events, failures, base).table;
    UpsertAllExtends(t, events, failures, base);
    assert r == t + r[|t|..];
    Table.LookupStable(t, r[|t|..], CandidateKey, k);
  }

  /** A pass never loses a pair from the table. */
  lemma UpsertAllKeysGrow(t: seq<Candidate>, events: seq<SuiEvent<CandidateRegisteredJson>>, failures: set<nat>, base: nat)
    ensures Table.Keys(t, CandidateKey) <= Table.Keys(UpsertAll(t, events, failures, base).table, CandidateKey)
  {
    var r := UpsertAll(t, events, failures, base).table;
    UpsertAllExtends(t, events, failures, base);
    assert r == t + r[|t|..];
    Table.KeysOfPrefix(t, r[|t|..], CandidateKey);
  }

  /**
   * One step of a replay: once a pass has applied the first event, the
   * replay's first event finds its pair and leaves the table alone.
   */
  lemma ReplayFirstStep(t: seq<Candidate>, events: seq<SuiEvent<CandidateRegisteredJson>>, base: nat, k: nat)
    requires 0 < k <= |events| && UpsertStep(t, events[0], false).Success?
    ensures var next := UpsertStep(t, events[0], false).value;
      var partial := UpsertAll(next, events[1..][..k - 1], {}, base + 1).table;
      && UpsertAll(t, events[..k], {}, base).table == partial
      && UpsertAll(partial, events, {}, base).table == UpsertAll(partial, events[1..], {}, base + 1).table
  {
    var next := UpsertStep(t, events[0], false).value;
    var shorter := events[1..][..k - 1];
    var head := events[..k];
    assert head[0] == events[0] && head[1..] == shorter;
    var partial := UpsertAll(next, shorter, {}, base + 1).table;
    UpsertAllKeysGrow(next, shorter, {}, base + 1);
    var row := CandidateRowOf(events[0]).value;
    Table.KeysAppend(t, CandidateKey, row);
    assert CandidateKey(row) in Table.Keys(next, CandidateKey);
    assert UpsertStep(partial, events[0], false) == Success(partial);
  }

  /**
   * Re-fetching a page after a pass that stopped after its first `k` events
   * and applying it on a healthy store gives the table of one clean pass.
   */
  lemma {:induction false} CandidatesReplay(t: seq<Candidate>, events: seq<SuiEvent<CandidateRegisteredJson>>, base: nat, k: nat)
    requires k <= |events|
    ensures UpsertAll(UpsertAll(t, events[..k], {}, base).table, events, {}, base).table == UpsertAll(t, events, {}, base).table
    decreases |events|
  {
    if k == 0 {
      assert events[..0] == [];
    } else if UpsertStep(t, events[0], false).Success? {
      var next := UpsertStep(t, events[0], false).value;
      ReplayFirstStep(t, events, base, k);
      assert UpsertAll(t, events, {}, base).table == UpsertAll(next, events[1..], {}, base + 1).table;
      CandidatesReplay(next, events[1..], base + 1, k - 1);
    } else {
      assert events[..k][0] == events[0];
    }
  }

  /** Whatever store failures stop a pass, it has applied a prefix of the batch as a clean pass would. */
  lemma {:induction false} UpsertAllCleanPrefix(t: seq<Candidate>, events: seq<SuiEvent<CandidateRegisteredJson>>, failures: set<nat>, base: nat)
    ensures exists k :: 0 <= k <= |events| && UpsertAll(t, events, failures, base).table == UpsertAll(t, events[..k], {}, base).table
    decreases |events|
  {
    assert events[..0] == [];
    if events != [] {
      var step := UpsertStep(t, events[0], base in failures);
      if step.Success? {
        var next := step.value;
        assert UpsertStep(t, events[0], base in {}) == Success(next);
        UpsertAllCleanPrefix(next, events[1..], failures, base + 1);
        var k :| 0 <= k <= |events[1..]| &&
          UpsertAll(next, events[1..], failures, base + 1).table == UpsertAll(next, events[1..][..k], {}, base + 1).table;
        assert events[..k + 1][0] == events[0] && events[..k + 1][1..] == events[1..][..k];
        assert UpsertAll(t, events, failures, base).table == UpsertAll(t, events[..k + 1], {}, base).table;
      } else {
        assert UpsertAll(t, events, failures, base).table == UpsertAll(t, events[..0], {}, base).table;
      }
    }
  }

  /**
   * Crash safety of `handleCandidateRegistered`: a pass cut short by store
   * failures or a malformed event leaves the cursor unsaved, the page is
   * fetched again, and the clean re-application ends in the table of one
   * clean pass.
   */
  lemma CandidatesReplayAfterFailures(t: seq<Candidate>, events: seq<SuiEvent<CandidateRegisteredJson>>, failures: set<nat>)
    ensures CandidatesAfterRegistered(CandidatesAfterRegistered(t, events, failures).table, events, {}).table
         == CandidatesAfterRegistered(t, events, {}).table
  {
    UpsertAllCleanPrefix(t, events, failures, 0);
    var k :| 0 <= k <= |events| && UpsertAll(t, events, failures, 0).table == UpsertAll(t, events[..k], {}, 0).table;
    CandidatesReplay(t, events, 0, k);
  }

  /**
   * First registration wins within a batch: for a pair new to the table, the
   * row kept is the one of the batch's first event with that pair, once the
   * batch has reached it (the update branch is empty, so later events with
   * the same pair leave it, digest included, as it is).
   */
  lemma {:induction false} CandidatesFirstWins(t: seq<Candidate>, events: seq<SuiEvent<CandidateRegisteredJson>>, failures: set<nat>, base: nat, i: nat, row: Candidate)
    requires i < |events| && CandidateRowOf(events[i]) == Success(row) && base + i !in failures
    requires CandidateKey(row) !in Table.Keys(t, CandidateKey)
    requires forall j :: 0 <= j < i ==> CandidateRowOf(events[j]).Success? && base + j !in failures
    requires forall j :: 0 <= j < i ==> KeyOf(events[j]) != CandidateKey(row)
    ensures Table.Lookup(UpsertAll(t, events, failures, base).table, CandidateKey, CandidateKey(row)) == Some(row)
    decreases |events|
  {
    var step := UpsertStep(t, events[0], base in failures);
    var r := UpsertAll(t, events, failures, base).table;
    if i == 0 {
      var next := t + [row];
      assert step == Success(next);
      assert r == UpsertAll(next, events[1..], failures, base + 1).table;
      Table.LookupAppendFresh(t, CandidateKey, row);
      UpsertAllKeeps(next, events[1..], failures, base + 1, CandidateKey(row));
    } else {
      var first := CandidateRowOf(events[0]).value;
      assert KeyOf(events[0]) == CandidateKey(first) != CandidateKey(row);
      var next := if CandidateKey(first) in Table.Keys(t, CandidateKey) then t else t + [first];
      assert step == Success(next);
      assert r == UpsertAll(next, events[1..], failures, base + 1).table;
      Table.KeysAppend(t, CandidateKey, first);
      assert CandidateKey(row) !in Table.Keys(next, CandidateKey);
      var rest := events[1..];
      assert rest[i - 1] == events[i];
      forall j | 0 <= j < i - 1
        ensures CandidateRowOf(rest[j]).Success? && base + 1 + j !in failures
        ensures KeyOf(rest[j]) != CandidateKey(row)
      {
        assert rest[j] == events[j + 1];
      }
      CandidatesFirstWins(next, rest, failures, base + 1, i - 1, row);
    }
  }

  /**
   * The batch threw at position `k`: the events before it went through, the
   * upsert of event `k` threw what the batch reports, and the table is the
   * one the events before `k` left.
   */
  ghost predicate AbortsAt(t: seq<Candidate>, events: seq<SuiEvent<CandidateRegisteredJson>>, failures: set<nat>, base: nat, k: nat)
    requires k < |events|
  {
    var all := UpsertAll(t, events, failures, base);
    var before := UpsertAll(t, events[..k], failures, base);
    && all.error.Some?
    && before.error.None?
    && UpsertStep(before.table, events[k], base + k in failures) == Failure(all.error.value)
    && all.table == before.table
  }

  /**
   * A throwing event ends the batch: the events before it are applied, it
   * has no effect, and the events after it are not applied.
   */
  lemma {:induction false} CandidatesAbortAt(t: seq<Candidate>, events: seq<SuiEvent<CandidateRegisteredJson>>, failures: set<nat>, base: nat)
    requires UpsertAll(t, events, failures, base).error.Some?
    ensures exists k :: 0 <= k < |events| && AbortsAt(t, events, failures, base, k)
    decreases |events|
  {
    var o := UpsertAll(t, events, failures, base);
    assert events[..0] == [];
    match UpsertStep(t, events[0], base in failures)
    case Failure(e) =>
      assert UpsertAll(t, events[..0], failures, base) == Outcome(t, None);
      assert AbortsAt(t, events, failures, base, 0);
    case Success(next) =>
      CandidatesAbortAt(next, events[1..], failures, base + 1);
      var k :| 0 <= k < |events[1..]| && AbortsAt(next, events[1..], failures, base + 1, k);
      assert events[..k + 1][0] == events[0] && events[..k + 1][1..] == events[1..][..k];
      assert events[1..][k] == events[k + 1];
      assert UpsertAll(t, events[..k + 1], failures, base) == UpsertAll(next, events[1..][..k], failures, base + 1);
      assert AbortsAt(t, events, failures, base, k + 1);
  }

  /** The batch loop of `handleCandidateRegistered`; `error` is what it throws, if anything. */
  method HandleCandidateRegistered(db: Database, events: seq<SuiEvent<CandidateRegisteredJson>>, failures: set<nat>)
    returns (error: Option<HandlerError>)
    requires db.Valid()
    modifies db
    ensures db.Valid()
    ensures Outcome(db.candidates, error) == CandidatesAfterRegistered(old(db.candidates), events, failures)
    ensures db.Snap() == old(db.Snap()).(candidates := CandidatesAfterRegistered(old(db.candidates), events, failures).table)
    ensures db.elections == old(db.elections) && db.results == old(db.results)
    ensures db.voters == old(db.voters) && db.votes == old(db.votes) && db.cursors == old(db.cursors)
  {
    for i := 0 to |events|
      invariant db.Valid()
      invariant UpsertAll(db.candidates, events[i..], failures, i) == CandidatesAfterRegistered(old(db.candidates), events, failures)
      invariant db.elections == old(db.elections) && db.results == old(db.results)
      invariant db.voters == old(db.voters) && db.votes == old(db.votes) && db.cursors == old(db.cursors)
    {
      assert events[i..][0] == events[i] && events[i..][1..] == events[i + 1..];
      var event := events[i];
      if event.parsedJson.None? {
        return Some(MissingPayload);
      }
      var data := event.parsedJson.value;
      if event.id.None? {
        return Some(MissingEventId);
      }
      if data.electionId.None? || data.candidate.None? {
        return Some(InvalidArgument);
      }
      if i in failures {
        return Some(StoreFailure);
      }
      var key := (data.electionId.value, data.candidate.value);
      var existing := Table.Lookup(db.candidates, CandidateKey, key);
      if existing.None? {
        var created := Candidate(data.electionId.value, data.candidate.value, event.id.value.txDigest);
        Table.UniqueAppend(db.candidates, CandidateKey, created);
        db.candidates := db.candidates + [created];
      }
      // else: the update branch is empty; the row stays as it is
    }
    return None;
  }
}

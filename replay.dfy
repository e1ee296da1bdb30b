/**
 * What a client of the read API observes when the indexer's handlers run:
 * the handlers' tables composed with the route projections.
 */
module Replay {
  import opened Wrappers
  import opened Types
  import opened Store
  import Table
  import ElectionHandlers
  import CandidateHandler
  import opened ElectionRoutes

  /** The snapshot after `handleElectionEnded` has walked `events` (what `HandleElectionEnded` makes of `db.Snap()`). */
  function AfterEnded(s: Snapshot, events: seq<SuiEvent<ElectionEndedJson>>, failures: set<nat>): Snapshot {
    s.(results := ElectionHandlers.ResultsAfterEnded(s.elections, s.results, events, failures))
  }

  /** The ranking reads votes and candidates only. */
  lemma RankingIgnoresResults(s: Snapshot, s': Snapshot, electionId: string, totalVotes: nat)
    requires s.votes == s'.votes && s.candidates == s'.candidates
    ensures RankedCandidates(s, electionId, totalVotes) == RankedCandidates(s', electionId, totalVotes)
  {
    var kept := Table.Filter(s.candidates, CandidateIn(electionId));
    assert Table.Project(kept, c => ResultOf(s, totalVotes, c)) == Table.Project(kept, c => ResultOf(s', totalVotes, c));
  }

  /**
   * An ended election is final: a later `EventElectionEnded` batch, a replay
   * included, changes neither its detail nor its results view.
   */
  lemma EndedElectionStaysFinal(s: Snapshot, events: seq<SuiEvent<ElectionEndedJson>>, failures: set<nat>, electionId: string)
    requires electionId in Table.Keys(s.results, ResultKey)
    ensures GetElection(AfterEnded(s, events, failures), electionId) == GetElection(s, electionId)
    ensures GetResults(AfterEnded(s, events, failures), electionId) == GetResults(s, electionId)
    ensures GetResults(s, electionId).hasEnded
  {
    var s' := AfterEnded(s, events, failures);
    ElectionHandlers.EndedKeepsExistingResult(s.elections, s.results, events, failures, electionId);
    RankingIgnoresResults(s, s', electionId, Table.Count(s.votes, VoteIn(electionId)));
  }

  /**
   * `handleElectionEnded` changes the election list only by turning
   * `hasEnded` on: order, names, creators and counts stay, and no election
   * that had ended stops being ended.
   */
  lemma EndedOnlySetsHasEnded(s: Snapshot, events: seq<SuiEvent<ElectionEndedJson>>, failures: set<nat>)
    ensures |ListElections(AfterEnded(s, events, failures))| == |ListElections(s)|
    ensures forall i :: 0 <= i < |ListElections(s)| ==>
      var before := ListElections(s)[i];
      var after := ListElections(AfterEnded(s, events, failures))[i];
      && after == before.(hasEnded := after.hasEnded)
      && (before.hasEnded ==> after.hasEnded)
  {
    var s' := AfterEnded(s, events, failures);
    ElectionHandlers.CreateMissingKeysGrow(s.results, ElectionHandlers.EndedRows(s.elections, events), ResultKey, failures, 0);
    assert s'.elections == s.elections && s'.candidates == s.candidates;
    assert s'.voters == s.voters && s'.votes == s.votes;
    var before := ListElections(s);
    var after := ListElections(s');
    forall i | 0 <= i < |before|
      ensures after[i] == before[i].(hasEnded := after[i].hasEnded)
      ensures before[i].hasEnded ==> after[i].hasEnded
    {
      var e := s.elections[|before| - 1 - i];
      assert before[i] == Summary(s, e);
      assert after[i] == Summary(s', e);
      assert Summary(s', e) == Summary(s, e).(hasEnded := Summary(s', e).hasEnded);
    }
  }

  /**
   * An `EventElectionEnded` the handler accepts (its election is in the
   * store and the store does not fail) leaves the election ended in the list
   * and in the results view.
   */
  lemma EndedEventEndsElection(s: Snapshot, events: seq<SuiEvent<ElectionEndedJson>>, failures: set<nat>, i: nat)
    requires i < |events| && i !in failures && ElectionHandlers.ResultRowOf(events[i]).Some?
    requires ElectionHandlers.ResultRowOf(events[i]).value.electionId in Table.Keys(s.elections, ElectionKey)
    ensures var electionId := events[i].parsedJson.value.electionId.value;
      && GetResults(AfterEnded(s, events, failures), electionId).hasEnded
      && GetElection(AfterEnded(s, events, failures), electionId).Success?
      && GetElection(AfterEnded(s, events, failures), electionId).value.hasEnded
  {
    ElectionHandlers.ElectionEndedCovers(s.elections, s.results, events, failures, i);
  }

  /**
   * The first accepted `EventElectionEnded` of an election that had no
   * result decides what the API reports: its winner (null for an empty or
   * absent one) and its on-chain vote total.
   */
  lemma FirstEndedEventDecides(s: Snapshot, events: seq<SuiEvent<ElectionEndedJson>>, failures: set<nat>, i: nat, row: ElectionResult)
    requires i < |events| && i !in failures && ElectionHandlers.ResultRowOf(events[i]) == Some(row)
    requires row.electionId in Table.Keys(s.elections, ElectionKey)
    requires row.electionId !in Table.Keys(s.results, ResultKey)
    requires forall j :: 0 <= j < i ==>
      || j in failures
      || ElectionHandlers.ResultRowOf(events[j]).None?
      || ElectionHandlers.ResultRowOf(events[j]).value.electionId != row.electionId
    ensures var s' := AfterEnded(s, events, failures);
      && GetResults(s', row.electionId).winner == row.winner
      && GetElection(s', row.electionId).Success?
      && GetElection(s', row.electionId).value.result == Some(ResultSummary(row.winner, row.totalVotes))
  {
    var rows := ElectionHandlers.EndedRows(s.elections, events);
    forall j | 0 <= j < i
      ensures 0 + j in failures || rows[j].None? || ResultKey(rows[j].value) != ResultKey(row)
    {
    }
    ElectionHandlers.CreateMissingFirstWins(s.results, rows, ResultKey, failures, 0, i, row);
  }

  /** The snapshot after `handleCandidateRegistered` has walked `events` (what `HandleCandidateRegistered` makes of `db.Snap()`). */
  function AfterRegistered(s: Snapshot, events: seq<SuiEvent<CandidateRegisteredJson>>, failures: set<nat>): Snapshot {
    s.(candidates := CandidateHandler.CandidatesAfterRegistered(s.candidates, events, failures).table)
  }

  /** After a batch the handler completes, every registered candidate is listed for its election. */
  lemma RegisteredCandidatesListed(s: Snapshot, events: seq<SuiEvent<CandidateRegisteredJson>>, failures: set<nat>, i: nat)
    requires CandidateHandler.CandidatesAfterRegistered(s.candidates, events, failures).error.None?
    requires i < |events|
    ensures CandidateHandler.CandidateRowOf(events[i]).Success?
    ensures var c := CandidateHandler.CandidateRowOf(events[i]).value;
      exists t :: t in ListCandidates(AfterRegistered(s, events, failures), c.electionId)
        && t.candidateAddress == c.candidateAddress
  {
    var s' := AfterRegistered(s, events, failures);
    CandidateHandler.UpsertAllCovers(s.candidates, events, failures, 0);
    var c := CandidateHandler.CandidateRowOf(events[i]).value;
    var x :| x in s'.candidates && CandidateKey(x) == CandidateHandler.KeyOf(events[i]);
    assert Tally(s', x) in ListCandidates(s', c.electionId);
  }

  // A concrete run: election E1 is created, then ended with winner 0xB and
  // an on-chain total of 3 while no vote rows were indexed.

  const Created: SuiEvent<ElectionCreatedJson> :=
    SuiEvent(Some(EventId("D1", "0")), Some(ElectionCreatedJson(Some("E1"), Some("Board"), Some("0xA"))))
  const Ended: SuiEvent<ElectionEndedJson> :=
    SuiEvent(Some(EventId("D2", "0")), Some(ElectionEndedJson(Some("E1"), Some("0xB"), Some("3"))))

  function CreatedOnly(): Snapshot {
    Snapshot(ElectionHandlers.ElectionsAfterCreated([], [Created], {}), [], [], [], [])
  }

  /** The stored election after the creation event alone. */
  lemma CreatedOnlyStores()
    ensures CreatedOnly().elections == [Election("E1", "Board", "0xA", "D1")]
  {
    var e := Election("E1", "Board", "0xA", "D1");
    var created := ElectionHandlers.CreatedRows([Created]);
    assert created == [Some(e)] by {
      assert created[0] == ElectionHandlers.ElectionRowOf(Created);
    }
    assert Table.Keys([], ElectionKey) == {};
    assert ElectionHandlers.CreateStep([], Some(e), ElectionKey, false) == [e];
    var none: set<nat> := {};
    assert created[1..] == [];
    assert ElectionHandlers.CreateMissing([e], created[1..], ElectionKey, none, 1) == [e];
    assert ElectionHandlers.CreateMissing([], created, ElectionKey, none, 0) == [e];
  }

  /** The stored result after the end event, and after it is replayed. */
  lemma EndedStores()
    ensures AfterEnded(CreatedOnly(), [Ended], {}).results == [ElectionResult("E1", Some("0xB"), 3, "D2")]
    ensures AfterEnded(AfterEnded(CreatedOnly(), [Ended], {}), [Ended], {}) == AfterEnded(CreatedOnly(), [Ended], {})
  {
    CreatedOnlyStores();
    var e := Election("E1", "Board", "0xA", "D1");
    var row := ElectionResult("E1", Some("0xB"), 3, "D2");
    assert Types.DecimalValue("3") == 3;
    assert ElectionHandlers.ResultRowOf(Ended) == Some(row);
    assert e in [e];
    var ended := ElectionHandlers.EndedRows([e], [Ended]);
    assert ended == [Some(row)] by {
      assert ended[0] == ElectionHandlers.EndedRowOf([e], Ended);
    }
    assert Table.Keys([], ResultKey) == {};
    assert ElectionHandlers.CreateStep([], Some(row), ResultKey, false) == [row];
    assert ended[1..] == [];
    var none: set<nat> := {};
    assert ElectionHandlers.CreateMissing([row], ended[1..], ResultKey, none, 1) == [row];
    assert ElectionHandlers.CreateMissing([], ended, ResultKey, none, 0) == [row];
    assert row in [row];
    assert ElectionHandlers.CreateStep([row], Some(row), ResultKey, false) == [row];
  }

  /**
   * Before the end the election is listed with zero counts and not ended.
   * After it, the detail reports the on-chain total while the results view
   * counts indexed vote rows; replaying the end event changes nothing.
   */
  lemma CreateThenEndScenario()
    ensures ListElections(CreatedOnly()) == [ElectionSummary("E1", "Board", "0xA", 0, 0, 0, false)]
    ensures GetElection(CreatedOnly(), "E1") == Success(ElectionDetail("E1", "Board", "0xA", [], [], 0, false, None))
    ensures GetElection(AfterEnded(CreatedOnly(), [Ended], {}), "E1")
         == Success(ElectionDetail("E1", "Board", "0xA", [], [], 0, true, Some(ResultSummary(Some("0xB"), 3))))
    ensures GetResults(AfterEnded(CreatedOnly(), [Ended], {}), "E1") == ResultsView("E1", true, Some("0xB"), 0, [])
    ensures AfterEnded(AfterEnded(CreatedOnly(), [Ended], {}), [Ended], {}) == AfterEnded(CreatedOnly(), [Ended], {})
  {
    CreatedOnlyStores();
    EndedStores();
    var row := ElectionResult("E1", Some("0xB"), 3, "D2");
    assert row in [row];
  }
}

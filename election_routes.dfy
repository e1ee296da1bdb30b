/**
 * backend/src/routes/elections.ts: the six GET endpoints as pure
 * projections of a store snapshot to response records. Relations are joined
 * on the election id (and on the address for a candidate's or a voter's
 * votes); "newest first" is reverse insertion order.
 */
module ElectionRoutes {
  import opened Wrappers
  import opened Types
  import opened Store
  import Table

  // ---------------------------------------------------------------- relations

  function CandidateIn(electionId: string): Candidate -> bool { (c: Candidate) => c.electionId == electionId }
  function VoterIn(electionId: string): Voter -> bool { (v: Voter) => v.electionId == electionId }
  function VoteIn(electionId: string): Vote -> bool { (v: Vote) => v.electionId == electionId }

  /** Votes cast in `electionId` for `candidateAddress`: a candidate's `_count.votes`. */
  function VoteFor(electionId: string, candidateAddress: string): Vote -> bool {
    (v: Vote) => v.electionId == electionId && v.candidateAddress == candidateAddress
  }

  /** Votes cast in `electionId` by `voterAddress`: a voter's `votes` filtered to the election. */
  function VoteBy(electionId: string, voterAddress: string): Vote -> bool {
    (v: Vote) => v.electionId == electionId && v.voterAddress == voterAddress
  }

  // ---------------------------------------------------------- GET /elections

  datatype ElectionSummary = ElectionSummary(
    electionId: string,
    name: string,
    creator: string,
    candidateCount: nat,
    voterCount: nat,
    voteCount: nat,
    hasEnded: bool)

  function Summary(s: Snapshot, e: Election): ElectionSummary {
    ElectionSummary(
      e.electionId, e.name, e.creator,
      Table.Count(s.candidates, CandidateIn(e.electionId)),
      Table.Count(s.voters, VoterIn(e.electionId)),
      Table.Count(s.votes, VoteIn(e.electionId)),
      Table.Lookup(s.results, ResultKey, e.electionId).Some?)
  }

  /**
   * Every election, newest first, with its three counts; `hasEnded` holds
   * exactly for the elections that have a result.
   */
  function ListElections(s: Snapshot): (r: seq<ElectionSummary>)
    ensures |r| == |s.elections|
    ensures forall i :: 0 <= i < |r| ==>
      && r[i].electionId == s.elections[|r| - 1 - i].electionId
      && r[i].name == s.elections[|r| - 1 - i].name
      && r[i].creator == s.elections[|r| - 1 - i].creator
    ensures forall i :: 0 <= i < |r| ==>
      (r[i].hasEnded <==> r[i].electionId in Table.Keys(s.results, ResultKey))
    ensures forall i :: 0 <= i < |r| ==>
      && r[i].candidateCount == |Table.Filter(s.candidates, CandidateIn(r[i].electionId))|
      && r[i].voterCount == |Table.Filter(s.voters, VoterIn(r[i].electionId))|
      && r[i].voteCount == |Table.Filter(s.votes, VoteIn(r[i].electionId))|
  {
    Table.NewestFirst(s.elections, e => Summary(s, e))
  }

  /** The election stored last is listed first, and every stored election is listed. */
  lemma ListElectionsNewestFirst(s: Snapshot, e: Election)
    ensures ListElections(s.(elections := s.elections + [e]))[0] == Summary(s, e)
    ensures forall x :: x in s.elections ==> Summary(s, x) in ListElections(s)
  {
    Table.NewestFirstContents(s.elections + [e], x => Summary(s, x));
    Table.NewestFirstContents(s.elections, x => Summary(s, x));
  }

  // ------------------------------------------------- GET /elections/:electionId

  datatype ApiError = ApiError(status: nat, message: string)

  const NotFound: ApiError := ApiError(404, "Election not found")

  datatype ResultSummary = ResultSummary(winner: Option<string>, totalVotes: nat)

  datatype ElectionDetail = ElectionDetail(
    electionId: string,
    name: string,
    creator: string,
    candidates: seq<string>,
    voters: seq<string>,
    voteCount: nat,
    hasEnded: bool,
    result: Option<ResultSummary>)

  function CandidateAddress(c: Candidate): string { c.candidateAddress }
  function VoterAddress(v: Voter): string { v.voterAddress }

  /**
   * One election with its candidates' and voters' addresses, its vote count
   * and its result; 404 for an unknown election id.
   */
  function GetElection(s: Snapshot, electionId: string): (r: Result<ElectionDetail, ApiError>)
    ensures r.Failure? <==> electionId !in Table.Keys(s.elections, ElectionKey)
    ensures r.Failure? ==> r.error == NotFound
    ensures r.Success? ==>
      && r.value.electionId == electionId
      && exists e :: e in s.elections && e.electionId == electionId && e.name == r.value.name && e.creator == r.value.creator
    ensures r.Success? ==>
      forall a :: a in r.value.candidates <==>
        exists c :: c in s.candidates && c.electionId == electionId && c.candidateAddress == a
    ensures r.Success? ==>
      forall a :: a in r.value.voters <==>
        exists v :: v in s.voters && v.electionId == electionId && v.voterAddress == a
    ensures r.Success? ==> r.value.voteCount == |Table.Filter(s.votes, VoteIn(electionId))|
    ensures r.Success? ==> (r.value.result.None? <==> electionId !in Table.Keys(s.results, ResultKey))
    ensures r.Success? ==> r.value.hasEnded == r.value.result.Some?
    ensures r.Success? && r.value.result.Some? ==>
      exists res :: res in s.results && res.electionId == electionId
        && r.value.result.value == ResultSummary(res.winner, res.totalVotes)
  {
    match Table.Lookup(s.elections, ElectionKey, electionId)
    case None => Failure(NotFound)
    case Some(e) =>
      var candidates := Table.Filter(s.candidates, CandidateIn(electionId));
      var voters := Table.Filter(s.voters, VoterIn(electionId));
      var result := Table.Lookup(s.results, ResultKey, electionId);
      var detail := ElectionDetail(
        e.electionId, e.name, e.creator,
        Table.Project(candidates, CandidateAddress),
        Table.Project(voters, VoterAddress),
        Table.Count(s.votes, VoteIn(electionId)),
        result.Some?,
        if result.Some? then Some(ResultSummary(result.value.winner, result.value.totalVotes)) else None);
      Table.ProjectFilterMembers(s.candidates, CandidateIn(electionId), CandidateAddress);
      Table.ProjectFilterMembers(s.voters, VoterIn(electionId), VoterAddress);
      Success(detail)
  }

  // -------------------------------------- GET /elections/:electionId/candidates

  datatype CandidateTally = CandidateTally(candidateAddress: string, voteCount: nat)

  /** A candidate's entry: its address and the number of votes cast for it in its election. */
  function Tally(s: Snapshot, c: Candidate): (t: CandidateTally)
    ensures t.candidateAddress == c.candidateAddress
    ensures t.voteCount == |Table.Filter(s.votes, VoteFor(c.electionId, c.candidateAddress))|
    ensures t.voteCount == 0 <==>
      forall v :: v in s.votes ==> !(v.electionId == c.electionId && v.candidateAddress == c.candidateAddress)
  {
    Table.CountPositive(s.votes, VoteFor(c.electionId, c.candidateAddress));
    CandidateTally(c.candidateAddress, Table.Count(s.votes, VoteFor(c.electionId, c.candidateAddress)))
  }

  /**
   * The election's candidates in table order, one tally each. An unknown
   * election is not an error: the list is empty.
   */
  function ListCandidates(s: Snapshot, electionId: string): (r: seq<CandidateTally>)
    ensures |r| == |Table.Filter(s.candidates, CandidateIn(electionId))|
    ensures r == [] <==> forall c :: c in s.candidates ==> c.electionId != electionId
    ensures forall t :: t in r <==> exists c :: c in s.candidates && c.electionId == electionId && t == Tally(s, c)
  {
    Table.ProjectFilterMembers(s.candidates, CandidateIn(electionId), c => Tally(s, c));
    Table.CountPositive(s.candidates, CandidateIn(electionId));
    Table.Project(Table.Filter(s.candidates, CandidateIn(electionId)), c => Tally(s, c))
  }

  // ----------------------------------------- GET /elections/:electionId/voters

  datatype VoterStatus = VoterStatus(voterAddress: string, hasVoted: bool)

  /** A voter's entry: `hasVoted` holds exactly when some vote in its election was cast by it. */
  function StatusOf(s: Snapshot, v: Voter): (st: VoterStatus)
    ensures st.voterAddress == v.voterAddress
    ensures st.hasVoted <==>
      exists vote :: vote in s.votes && vote.electionId == v.electionId && vote.voterAddress == v.voterAddress
  {
    Table.CountPositive(s.votes, VoteBy(v.electionId, v.voterAddress));
    VoterStatus(v.voterAddress, Table.Count(s.votes, VoteBy(v.electionId, v.voterAddress)) > 0)
  }

  /** The election's voters in table order, one status each. */
  function ListVoters(s: Snapshot, electionId: string): (r: seq<VoterStatus>)
    ensures |r| == |Table.Filter(s.voters, VoterIn(electionId))|
    ensures forall st :: st in r <==> exists v :: v in s.voters && v.electionId == electionId && st == StatusOf(s, v)
  {
    Table.ProjectFilterMembers(s.voters, VoterIn(electionId), v => StatusOf(s, v));
    Table.Project(Table.Filter(s.voters, VoterIn(electionId)), v => StatusOf(s, v))
  }

  // ------------------------------------------ GET /elections/:electionId/votes

  datatype VoteRecord = VoteRecord(voterAddress: string, candidateAddress: string, txDigest: string)

  function RecordOf(v: Vote): VoteRecord { VoteRecord(v.voterAddress, v.candidateAddress, v.txDigest) }

  /** The election's votes, newest first: exactly the votes stored for it. */
  function ListVotes(s: Snapshot, electionId: string): (r: seq<VoteRecord>)
    ensures |r| == Table.Count(s.votes, VoteIn(electionId))
    ensures forall v :: v in s.votes && v.electionId == electionId ==> RecordOf(v) in r
    ensures forall t :: t in r ==> exists v :: v in s.votes && v.electionId == electionId && RecordOf(v) == t
    ensures forall i :: 0 <= i < |r| ==> r[i] == RecordOf(Table.Filter(s.votes, VoteIn(electionId))[|r| - 1 - i])
  {
    var votes := Table.Filter(s.votes, VoteIn(electionId));
    Table.NewestFirstContents(votes, RecordOf);
    Table.NewestFirst(votes, RecordOf)
  }

  /**
   * A vote stored after the others heads its election's list, ahead of the
   * list as it was; it leaves every other election's list unchanged.
   */
  lemma ListVotesNewestFirst(s: Snapshot, electionId: string, v: Vote)
    ensures v.electionId == electionId ==>
      ListVotes(s.(votes := s.votes + [v]), electionId) == [RecordOf(v)] + ListVotes(s, electionId)
    ensures v.electionId != electionId ==>
      ListVotes(s.(votes := s.votes + [v]), electionId) == ListVotes(s, electionId)
  {
    var p := VoteIn(electionId);
    var kept := Table.Filter(s.votes, p);
    Table.FilterConcat(s.votes, [v], p);
    Table.FilterSingle(v, p);
    if v.electionId == electionId {
      assert Table.Filter(s.votes + [v], p) == kept + [v];
      Table.NewestFirstAppend(kept, v, RecordOf);
    } else {
      assert Table.Filter(s.votes + [v], p) == kept + [];
      assert kept + [] == kept;
    }
  }

  // ---------------------------------------- GET /elections/:electionId/results

  /**
   * A candidate's share of the vote: the text `"0.00"` when no vote was
   * cast, else the ratio that is rendered as a percentage with two decimals.
   */
  datatype Percentage = ZeroPercent | Ratio(voteCount: nat, totalVotes: nat)

  function PercentageOf(voteCount: nat, totalVotes: nat): (p: Percentage)
    ensures p == ZeroPercent <==> totalVotes == 0
    ensures p.Ratio? ==> p.voteCount == voteCount && p.totalVotes == totalVotes
  {
    if totalVotes > 0 then Ratio(voteCount, totalVotes) else ZeroPercent
  }

  datatype CandidateResult = CandidateResult(candidateAddress: string, voteCount: nat, percentage: Percentage)

  datatype ResultsView = ResultsView(
    electionId: string,
    hasEnded: bool,
    winner: Option<string>,
    totalVotes: nat,
    candidates: seq<CandidateResult>)

  predicate SortedByVotes(xs: seq<CandidateResult>) {
    forall i, j :: 0 <= i < j < |xs| ==> xs[i].voteCount >= xs[j].voteCount
  }

  /** A bound on every vote count survives a reordering that adds one entry within it. */
  lemma InsertKeepsBound(x: CandidateResult, xs: seq<CandidateResult>, r: seq<CandidateResult>, bound: nat)
    requires multiset(r) == multiset(xs) + multiset{x}
    requires x.voteCount <= bound
    requires forall i :: 0 <= i < |xs| ==> xs[i].voteCount <= bound
    ensures forall i :: 0 <= i < |r| ==> r[i].voteCount <= bound
  {
    forall i | 0 <= i < |r| ensures r[i].voteCount <= bound {
      assert r[i] in multiset(r);
      if r[i] != x {
        assert r[i] in multiset(xs);
        var k :| 0 <= k < |xs| && xs[k] == r[i];
      }
    }
  }

  /** An entry with at least as many votes as every entry of a sorted list may head it. */
  lemma SortedCons(h: CandidateResult, rest: seq<CandidateResult>)
    requires SortedByVotes(rest)
    requires forall i :: 0 <= i < |rest| ==> rest[i].voteCount <= h.voteCount
    ensures SortedByVotes([h] + rest)
  {
    var r := [h] + rest;
    forall i, j | 0 <= i < j < |r| ensures r[i].voteCount >= r[j].voteCount {
      assert r[j] == rest[j - 1];
      if i > 0 {
        assert r[i] == rest[i - 1];
      }
    }
  }

  /** Insert `x` before the first entry with no more votes. */
  function InsertByVotes(x: CandidateResult, xs: seq<CandidateResult>): (r: seq<CandidateResult>)
    requires SortedByVotes(xs)
    ensures SortedByVotes(r)
    ensures multiset(r) == multiset(xs) + multiset{x}
  {
    if xs == [] || x.voteCount >= xs[0].voteCount then
      SortedCons(x, xs);
      [x] + xs
    else
      var rest := InsertByVotes(x, xs[1..]);
      assert xs == [xs[0]] + xs[1..];
      InsertKeepsBound(x, xs[1..], rest, xs[0].voteCount);
      SortedCons(xs[0], rest);
      [xs[0]] + rest
  }

  /** Candidates by vote count, highest first; equal counts keep their table order. */
  function SortByVotes(xs: seq<CandidateResult>): (r: seq<CandidateResult>)
    ensures SortedByVotes(r)
    ensures multiset(r) == multiset(xs)
  {
    if xs == [] then []
    else
      assert xs == [xs[0]] + xs[1..];
      InsertByVotes(xs[0], SortByVotes(xs[1..]))
  }

  /**
   * A candidate's line in the results: its votes, never more than the
   * votes cast in its election, and its share of `totalVotes`.
   */
  function ResultOf(s: Snapshot, totalVotes: nat, c: Candidate): (x: CandidateResult)
    ensures x.candidateAddress == c.candidateAddress
    ensures x.voteCount == |Table.Filter(s.votes, VoteFor(c.electionId, c.candidateAddress))|
    ensures x.voteCount <= |Table.Filter(s.votes, VoteIn(c.electionId))|
    ensures x.percentage == PercentageOf(x.voteCount, totalVotes)
  {
    Table.CountMono(s.votes, VoteFor(c.electionId, c.candidateAddress), VoteIn(c.electionId));
    var votes := Table.Count(s.votes, VoteFor(c.electionId, c.candidateAddress));
    CandidateResult(c.candidateAddress, votes, PercentageOf(votes, totalVotes))
  }

  /** A permutation has the same members. */
  lemma SameMembers(a: seq<CandidateResult>, b: seq<CandidateResult>)
    requires multiset(a) == multiset(b)
    ensures forall x :: x in a <==> x in b
  {
    forall x ensures x in a <==> x in b {
      assert x in a <==> x in multiset(a);
      assert x in b <==> x in multiset(b);
    }
  }

  /** The election's candidate lines, highest vote count first. */
  function RankedCandidates(s: Snapshot, electionId: string, totalVotes: nat): (r: seq<CandidateResult>)
    ensures SortedByVotes(r)
    ensures multiset(r)
         == multiset(Table.Project(Table.Filter(s.candidates, CandidateIn(electionId)), c => ResultOf(s, totalVotes, c)))
    ensures forall x :: x in r <==>
      exists c :: c in s.candidates && c.electionId == electionId && x == ResultOf(s, totalVotes, c)
  {
    var unsorted := Table.Project(Table.Filter(s.candidates, CandidateIn(electionId)), c => ResultOf(s, totalVotes, c));
    Table.ProjectFilterMembers(s.candidates, CandidateIn(electionId), c => ResultOf(s, totalVotes, c));
    var sorted := SortByVotes(unsorted);
    SameMembers(sorted, unsorted);
    sorted
  }

  /** `result?.winner || null`: the stored winner unless there is no result or it is empty. */
  function WinnerOf(result: Option<ElectionResult>): (w: Option<string>)
    ensures w.Some? <==> result.Some? && Truthy(result.value.winner)
    ensures w.Some? ==> w == result.value.winner
  {
    if result.Some? && Truthy(result.value.winner) then result.value.winner else None
  }

  /**
   * The results view: whether the election has ended, its winner (null when
   * there is no result or the stored winner is empty), the number of votes
   * cast in it, and its candidates by vote count, highest first.
   */
  function GetResults(s: Snapshot, electionId: string): (r: ResultsView)
    ensures r.electionId == electionId
    ensures r.totalVotes == |Table.Filter(s.votes, VoteIn(electionId))|
    ensures r.hasEnded <==> electionId in Table.Keys(s.results, ResultKey)
    ensures r.winner.Some? ==> r.hasEnded && r.winner.value != ""
    ensures r.winner.Some? ==>
      exists res :: res in s.results && res.electionId == electionId && res.winner == r.winner
    ensures r.hasEnded && r.winner.None? ==> !Truthy(Table.Lookup(s.results, ResultKey, electionId).value.winner)
    ensures SortedByVotes(r.candidates)
    ensures multiset(r.candidates)
         == multiset(Table.Project(Table.Filter(s.candidates, CandidateIn(electionId)), c => ResultOf(s, r.totalVotes, c)))
    ensures forall x :: x in r.candidates <==>
      exists c :: c in s.candidates && c.electionId == electionId && x == ResultOf(s, r.totalVotes, c)
  {
    var totalVotes := Table.Count(s.votes, VoteIn(electionId));
    var result := Table.Lookup(s.results, ResultKey, electionId);
    ResultsView(electionId, result.Some?, WinnerOf(result), totalVotes, RankedCandidates(s, electionId, totalVotes))
  }

  /** Every vote count is within the total, and with no vote cast every share is "0.00". */
  lemma ResultsWithinTotal(s: Snapshot, electionId: string)
    ensures forall x :: x in GetResults(s, electionId).candidates ==> x.voteCount <= GetResults(s, electionId).totalVotes
    ensures GetResults(s, electionId).totalVotes == 0 ==>
      forall x :: x in GetResults(s, electionId).candidates ==> x.percentage == ZeroPercent
  {
    var r := GetResults(s, electionId);
    forall x | x in r.candidates ensures x.voteCount <= r.totalVotes && x.percentage == PercentageOf(x.voteCount, r.totalVotes) {
      var c :| c in s.candidates && c.electionId == electionId && x == ResultOf(s, r.totalVotes, c);
    }
  }
}

/**
 * The relational store the indexer writes and the read API queries: one
 * table per entity, rows in insertion order. The store's unique constraints
 * (election id, result per election, candidate per (election, address),
 * cursor id) are the class invariant `Valid`.
 */
module Store {
  import opened Wrappers
  import Table

  datatype Election = Election(electionId: string, name: string, creator: string, txDigest: string)

  /** `winner` is null for a no-winner outcome. */
  datatype ElectionResult = ElectionResult(
    electionId: string, winner: Option<string>, totalVotes: nat, txDigest: string)

  datatype Candidate = Candidate(electionId: string, candidateAddress: string, txDigest: string)

  datatype Voter = Voter(electionId: string, voterAddress: string, txDigest: string)

  datatype Vote = Vote(electionId: string, voterAddress: string, candidateAddress: string, txDigest: string)

  /** One resume position per tracker, keyed by the tracker's `type`. */
  datatype CursorRow = CursorRow(id: string, txDigest: string, eventSeq: string)

  function ElectionKey(e: Election): string { e.electionId }
  function ResultKey(r: ElectionResult): string { r.electionId }
  function CandidateKey(c: Candidate): (string, string) { (c.electionId, c.candidateAddress) }
  function CursorKey(c: CursorRow): string { c.id }

  /** The entity tables as the read API sees them at one instant. */
  datatype Snapshot = Snapshot(
    elections: seq<Election>,
    results: seq<ElectionResult>,
    candidates: seq<Candidate>,
    voters: seq<Voter>,
    votes: seq<Vote>)

  class Database {
    var elections: seq<Election>
    var results: seq<ElectionResult>
    var candidates: seq<Candidate>
    var voters: seq<Voter>
    var votes: seq<Vote>
    var cursors: seq<CursorRow>

    /** At most one row per natural key in every keyed table. */
    ghost predicate Valid()
      reads this
    {
      && Table.Unique(elections, ElectionKey)
      && Table.Unique(results, ResultKey)
      && Table.Unique(candidates, CandidateKey)
      && Table.Unique(cursors, CursorKey)
    }

    constructor ()
      ensures Valid()
      ensures elections == [] && results == [] && candidates == []
      ensures voters == [] && votes == [] && cursors == []
    {
      elections, results, candidates := [], [], [];
      voters, votes, cursors := [], [], [];
    }

    /** The entity tables as one value, for the read API. */
    function Snap(): Snapshot
      reads this
    {
      Snapshot(elections, results, candidates, voters, votes)
    }
  }
}

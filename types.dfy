/**
 * The raw ledger events the indexer receives and the payload records of
 * backend/src/types/index.ts. Every payload field is optional, because the
 * handlers cast an untyped JSON object and must cope with missing fields.
 */
module Types {
  import opened Wrappers

  /** A position in the event stream: the `EventId` of an event, also the cursor. */
  datatype EventId = EventId(txDigest: string, eventSeq: string)

  /**
   * One event of a page returned by the ledger node. `parsedJson` is the
   * decoded payload, absent when the node could not decode it; `id` is the
   * event's position.
   */
  datatype SuiEvent<P> = SuiEvent(id: Option<EventId>, parsedJson: Option<P>)

  /** Payload of `EventElectionCreated` (JSON keys election_id, name, creator). */
  datatype ElectionCreatedJson = ElectionCreatedJson(
    electionId: Option<string>, name: Option<string>, creator: Option<string>)

  /** Payload of `EventElectionEnded` (JSON keys election_id, winner, total_votes). */
  datatype ElectionEndedJson = ElectionEndedJson(
    electionId: Option<string>, winner: Option<string>, totalVotes: Option<string>)

  /** Payload of `EventCandidateRegistered` (JSON keys election_id, candidate). */
  datatype CandidateRegisteredJson = CandidateRegisteredJson(
    electionId: Option<string>, candidate: Option<string>)

  /** JavaScript truthiness of an optional string: present and not empty. */
  predicate Truthy(s: Option<string>) {
    s.Some? && s.value != ""
  }

  /** The transaction digest recorded as provenance, `'unknown'` when the event has no id. */
  function TxDigestOrUnknown<P>(ev: SuiEvent<P>): (d: string)
    ensures ev.id.Some? ==> d == ev.id.value.txDigest
    ensures ev.id.None? ==> d == "unknown"
  {
    match ev.id
    case Some(id) => id.txDigest
    case None => "unknown"
  }

  predicate IsDigits(s: string) {
    forall i :: 0 <= i < |s| ==> '0' <= s[i] <= '9'
  }

  function DecimalValue(s: string): nat
    requires IsDigits(s)
  {
    if s == [] then 0
    else 10 * DecimalValue(s[..|s| - 1]) + (s[|s| - 1] as int - '0' as int)
  }

  /**
   * JavaScript `Number(s)` restricted to decimal numerals: `None` stands for
   * `NaN`. The empty string converts to 0, as in JavaScript.
   */
  function NumberOf(s: string): (r: Option<nat>)
    ensures r.Some? <==> IsDigits(s)
    ensures r.Some? ==> r.value == DecimalValue(s)
    ensures s == "" ==> r == Some(0)
  {
    if IsDigits(s) then Some(DecimalValue(s)) else None
  }

  /** The decimal numeral of `n`, without leading zeros. */
  function DecimalText(n: nat): (s: string)
    ensures IsDigits(s) && s != []
    decreases n
  {
    var digit := ('0' as int + n % 10) as char;
    if n < 10 then [digit] else DecimalText(n / 10) + [digit]
  }

  /** Reading a numeral and writing one are inverse: `Number` gives back the value written. */
  lemma {:induction false} NumberOfDecimalText(n: nat)
    ensures NumberOf(DecimalText(n)) == Some(n)
    decreases n
  {
    var s := DecimalText(n);
    assert s[|s| - 1] as int - '0' as int == n % 10;
    if n >= 10 {
      NumberOfDecimalText(n / 10);
      assert s[..|s| - 1] == DecimalText(n / 10);
    } else {
      assert s[..|s| - 1] == [];
    }
    assert DecimalValue(s) == 10 * DecimalValue(s[..|s| - 1]) + n % 10;
  }
}

# Voting-platform indexer: a Dafny model

This project models the indexing back end of an on-chain voting platform. An
indexer polls the ledger for the voting contract's events: an election is
created, a candidate registers, a voter registers, a vote is cast, an
election ends. It hands each page of events to a handler, and the handler
writes rows into a relational store. A read API projects the store into JSON
responses.

The model covers these parts of the back end:

- **Store** (`store.dfy`, `table.dfy`). The relational store is a `Database`
  class with one table per entity. Each table is a sequence of rows in
  insertion order. The class invariant `Valid` holds the store's unique
  constraints: one election per id, one result per election, one candidate
  per (election, address) and one cursor per tracker. `findUnique` is
  `Table.Lookup` and `count` is `Table.Count`. The store's `upsert` appears
  in two forms. The cursor upsert overwrites the row, and `Table.Upsert`
  models it. The candidate upsert has an empty update branch, so it keeps
  the existing row. `CandidateHandler.UpsertStep` models it as a lookup,
  then an append when the key is new.
  "Ordered by `createdAt` descending" is reverse insertion order.
- **Election handlers** (`election_handlers.dfy`). `handleElectionCreated`
  and `handleElectionEnded` from `election.ts` are imperative `for` loops
  over the batch. Each is proved against a fold (`CreateMissing`) over the
  rows the events ask for. That the store throws is an input: `failures`
  holds the batch positions at which a store call fails. The handler catches
  the failure and goes on to the next event.
- **Candidate handler** (`candidate_handler.dfy`). `handleCandidateRegistered`
  is one upsert per event, and its update branch is empty. Nothing is
  caught, so the first event that throws ends the batch.
- **Indexer** (`event_indexer.dfy`, `sui_client.dfy`):
  - the registry of the five tracked event kinds;
  - the per-tracker resume cursor (`getLatestCursor`, `saveLatestCursor`);
  - the polling step, which the source still leaves as a placeholder;
  - the delay rule for the next poll;
  - the start-up loop `setupEventListeners`.
- **Read API** (`election_routes.dfy`). The six GET endpoints are pure
  functions of a store `Snapshot`.
- **Configuration** (`config.dfy`). `getEnvVar` and the `CONFIG` object are
  pure functions of an environment map.
- **End to end** (`replay.dfy`). These are lemmas about what a client of the
  read API observes after the handlers run:
  - an ended election is final;
  - `handleElectionEnded` only turns `hasEnded` on;
  - the first accepted end event decides the winner;
  - registered candidates are listed;
  - a concrete run in which an election is created and then ended.

JavaScript truthiness appears as `Types.Truthy`: a value is truthy when it
is present and not empty. The election handlers test the payload fields for
truthiness. The candidate handler does not: an empty string is a valid key
there, and only a missing field throws.

The registry in backend/src/indexer/event-indexer.ts:20 imports
`handleElectionCreated` and `handleElectionEnded` from
`backend/src/indexer/handlers/election.ts`. In that file both are empty
loops. The handlers modelled here are the implemented ones in `election.ts`.
`EventIndexer.Handler` names the handler that each tracker calls.

## Model

| member | source | states |
|---|---|---|
| Table.Lookup | backend/src/indexer/event-indexer.ts:130-132 | `findUnique` finds a row exactly when its key is in the table, and the row it finds carries that key |
| Table.Upsert | backend/src/indexer/event-indexer.ts:149-160 | after an upsert, a lookup of the row's key finds the row; lookups of other keys are unchanged; the key set gains exactly that key; uniqueness of keys is preserved |
| Table.UpsertTwice | backend/src/indexer/event-indexer.ts:149-160 | two upserts of the same key leave the table as the second alone would (last write wins) |
| Table.Count | backend/src/routes/elections.ts:226-228 | a count is at most the table size, and it is zero exactly when no row matches |
| Table.Filter | backend/src/routes/elections.ts:119-128 | a `where` query returns exactly the matching rows, as many as the count |
| Table.FilterConcat | backend/src/routes/elections.ts:119-128 | querying a table whose rows are two runs gives the first run's matches followed by the second's, in insertion order |
| Table.FilterSingle | backend/src/routes/elections.ts:119-128 | a single row is returned exactly when it matches |
| Table.CountConcat | backend/src/routes/elections.ts:226-228 | the count over two runs of rows is the sum of their counts |
| Table.CountSingle | backend/src/routes/elections.ts:226-228 | a single row counts 1 when it matches and 0 otherwise, so with `CountConcat` the count is the number of matching rows |
| Table.NewestFirst | backend/src/routes/elections.ts:36-38 | ordering by `createdAt` descending lists the last inserted row first and every row once |
| Table.NewestFirstContents | backend/src/routes/elections.ts:36-38 | every row is listed, only rows are listed, and the newest row is at the head |
| Table.CountMono | backend/src/routes/elections.ts:209-228 | a narrower filter never counts more rows |
| Table.CountPositive | backend/src/routes/elections.ts:161 | a count is positive exactly when some row matches |
| Table.ProjectFilterMembers | backend/src/routes/elections.ts:94-95 | mapping a filtered query yields exactly the images of the matching rows |
| Types.TxDigestOrUnknown | election.ts:41 | the recorded digest is the event's transaction digest, or `'unknown'` when the event has no id |
| Types.NumberOf | election.ts:90 | `Number` of a text converts exactly the decimal numerals, to their decimal value; the empty text converts to 0 |
| Types.NumberOfDecimalText | election.ts:90 | converting the decimal numeral of any count gives that count back |
| Config.GetEnvVar | backend/src/config.ts:17-23 | a non-empty environment value wins; otherwise the non-empty default is used; otherwise it throws with a message that names the variable; a returned value is never empty |
| Config.MissingVarMessage | backend/src/config.ts:20 | the variable's name can be read back from the error message |
| Config.LoadConfig | backend/src/config.ts:26-43 | loading succeeds exactly when `DATABASE_URL` and `PACKAGE_ID` are set; the first missing one, in declaration order, is reported; the other entries take the environment value or the defaults `testnet`, the testnet URL, `3001` and `5000`; the module name is `vote` |
| SuiClient.GetEventType | backend/src/sui/client.ts:49-51 | the event type reads as the package id, then `::vote::`, then the event name |
| SuiClient.EventNameRoundTrip | backend/src/sui/client.ts:49-51 | the event name can be read back from the fully qualified event type |
| SuiClient.EventTypeInjective | backend/src/sui/client.ts:49-51 | distinct event names give distinct event types |
| EventIndexer.EventsToTrack | backend/src/indexer/event-indexer.ts:45-81 | there are five trackers; each filters on `<package>::vote::<type>`; no two share a `type`; in registry order the types are ElectionCreated, CandidateRegistered, VoterRegistered, VoteCast and ElectionEnded, each wired to its own handler |
| EventIndexer.TrackerFiltersDistinct | backend/src/indexer/event-indexer.ts:45-81 | no two trackers filter on the same event type |
| EventIndexer.EachHandlerTrackedOnce | backend/src/indexer/event-indexer.ts:45-81 | every handler is the callback of exactly one tracker |
| EventIndexer.GetLatestCursor | backend/src/indexer/event-indexer.ts:129-142 | a cursor is returned exactly when a row for the tracker's `type` exists, and it is that row's digest and sequence number; with one row per tracker, any stored row for the `type` determines the result |
| EventIndexer.SaveLatestCursor | backend/src/indexer/event-indexer.ts:148-161 | when the store succeeds, the cursor table becomes the upsert of the tracker's row; when it throws, the call rejects and the table is unchanged; the unique constraints hold; the other tables are unchanged |
| EventIndexer.CursorRoundTrip | backend/src/indexer/event-indexer.ts:129-161 | after a save, `getLatestCursor` returns the saved cursor |
| EventIndexer.CursorOthersUnchanged | backend/src/indexer/event-indexer.ts:148-161 | a save for one tracker leaves every other tracker's cursor unchanged |
| EventIndexer.CursorLastWriteWins | backend/src/indexer/event-indexer.ts:149-160 | of two saves for one tracker, the last one wins |
| EventIndexer.ExecuteEventJob | backend/src/indexer/event-indexer.ts:87-107 | the placeholder polling step returns its cursor unchanged and reports no further page |
| EventIndexer.NextPollDelay | backend/src/indexer/event-indexer.ts:118-122 | the delay is zero while pages remain, otherwise the full polling interval; it never exceeds the interval |
| EventIndexer.PlaceholderPollsIdle | backend/src/indexer/event-indexer.ts:103-122 | with the placeholder step the cursor never moves and every poll waits the full interval |
| EventIndexer.SetupEventListeners | backend/src/indexer/event-indexer.ts:167-186 | listeners start in registry order, each from its tracker's saved cursor; a cursor read that throws rejects the call, and no later tracker starts; the call succeeds exactly when every tracker started |
| ElectionHandlers.CreateMissingExtends | election.ts:44-60 | a batch only appends rows; each appended row is asked for by an event on which the store did not fail |
| ElectionHandlers.CreateMissingKeysGrow | election.ts:44-60 | no key disappears from the table |
| ElectionHandlers.CreateMissingUnique | election.ts:44-51 | the duplicate check keeps at most one row per key |
| ElectionHandlers.CreateMissingCovers | election.ts:44-60 | every key asked for by an event on which the store did not fail is in the table afterwards |
| ElectionHandlers.CreateMissingAbsorbs | election.ts:48-51 | a batch whose keys are all present changes nothing |
| ElectionHandlers.CreateMissingIdempotent | election.ts:44-60 | after a batch was applied on a healthy store, applying it again changes nothing, even when the store fails during the replay |
| ElectionHandlers.CreateMissingConcat | election.ts:22-67 | applying a batch is applying its first part and then the rest |
| ElectionHandlers.CreateMissingReplay | election.ts:22-67 | re-applying a whole page after a crash that followed its first `k` events gives the table of one clean pass |
| ElectionHandlers.CreateMissingFirstWins | election.ts:44-60 | for a key new to the table, the row kept is the one from the first event with that key on which the store did not fail |
| ElectionHandlers.CreateMissingKeepsExisting | election.ts:48-51 | a row already in the table is found unchanged afterwards |
| ElectionHandlers.ElectionRowOf | election.ts:25-41 | an event is accepted exactly when it has a payload with a truthy id, name and creator; the row carries those fields and the digest |
| ElectionHandlers.CreatedRows | election.ts:22-41 | each batch position asks for the row of its event |
| ElectionHandlers.ElectionsCreatedFromEvents | election.ts:21-68 | existing elections are untouched; ids stay unique; every new election comes from an accepted event of the batch |
| ElectionHandlers.ElectionCreatedCovers | election.ts:53-60 | every accepted event on which the store did not fail leaves its election in the store |
| ElectionHandlers.ElectionsCreatedIdempotent | election.ts:44-51 | replaying a batch of creations changes nothing |
| ElectionHandlers.ElectionsCreatedReplay | election.ts:21-68 | re-applying a page after a partial pass gives the table of one clean pass |
| ElectionHandlers.ElectionCreatedFirstWins | election.ts:44-60 | of several creations of one new id, the first accepted one decides name, creator and digest |
| ElectionHandlers.ElectionCreatedKeepsExisting | election.ts:48-51 | an election already stored is never overwritten |
| ElectionHandlers.HandleElectionCreated | election.ts:21-68 | the elections table becomes the fold of the batch; the unique constraints hold; no other table changes, so the snapshot the read API sees differs only in its elections |
| ElectionHandlers.TotalVotesOf | election.ts:90 | an absent total counts as 0; a numeric text gives its decimal value (that of `Number`), and anything else is NaN |
| ElectionHandlers.ResultRowOf | election.ts:77-93 | an event is accepted exactly when it has a payload with a truthy election id and a numeric total; the winner is null exactly when it is not truthy; an absent total is 0; the stored total is the decimal value of the event's text |
| ElectionHandlers.EndedRowOf | election.ts:95-103 | an end event asks for a result row exactly when it converts and its election is in the store, and then it asks for that converted row |
| ElectionHandlers.EndedRows | election.ts:95-103 | each batch position asks for the result row only when its election is in the store |
| ElectionHandlers.ResultsEndedFromEvents | election.ts:74-138 | existing results are untouched; there is at most one result per election; every new result belongs to a stored election, has no empty winner and comes from an event of the batch |
| ElectionHandlers.EndedWithoutElectionSkipped | election.ts:100-103 | an end event for an unknown election creates no result |
| ElectionHandlers.EndedKeepsExistingResult | election.ts:110-117 | a stored result is never overwritten |
| ElectionHandlers.ElectionEndedCovers | election.ts:119-129 | an accepted end event for a stored election, on which the store did not fail, leaves a result for that election |
| ElectionHandlers.ResultsEndedIdempotent | election.ts:110-117 | replaying a batch of end events changes nothing |
| ElectionHandlers.ResultsEndedReplay | election.ts:74-138 | re-applying a page after a partial pass gives the table of one clean pass |
| ElectionHandlers.HandleElectionEnded | election.ts:74-138 | the results table becomes the fold of the batch over the stored elections; the elections table and all others are unchanged, so the read API's snapshot becomes `Replay.AfterEnded` of the old one; the unique constraints hold |
| CandidateHandler.CandidateRowOf | backend/src/indexer/handlers/candidate.ts:39-79 | a missing payload throws; otherwise evaluation succeeds exactly when the election id, the candidate and the event id are present; the row takes them from the event |
| CandidateHandler.UpsertStep | backend/src/indexer/handlers/candidate.ts:57-80 | an argument that fails to evaluate throws before the store is called; a store failure throws; otherwise the table is kept when the (election, candidate) pair is present (empty update branch) and gains the event's row when it is absent, and the pair is found afterwards |
| CandidateHandler.UpsertAllExtends | backend/src/indexer/handlers/candidate.ts:57-80 | the handler only appends; pairs stay unique; every new row comes from an event of the batch |
| CandidateHandler.UpsertAllCovers | backend/src/indexer/handlers/candidate.ts:57-80 | after a normal return every event was well formed and its pair is in the table |
| CandidateHandler.UpsertAllCoversPrefix | backend/src/indexer/handlers/candidate.ts:28-83 | on a healthy store every event up to the first malformed one has its pair in the table |
| CandidateHandler.UpsertAllAbsorbs | backend/src/indexer/handlers/candidate.ts:68 | when every pair is present, the empty update branch leaves the table as it is |
| CandidateHandler.CandidatesIdempotent | backend/src/indexer/handlers/candidate.ts:57-80 | applying a batch twice, the first time on a healthy store, gives the table of applying it once, even when the first pass stopped at a malformed event and whatever the store does during the replay |
| CandidateHandler.CandidatesReplay | backend/src/indexer/handlers/candidate.ts:28-83 | re-applying the whole page on a healthy store after a pass that applied only its first `k` events gives the table of one clean pass |
| CandidateHandler.UpsertAllCleanPrefix | backend/src/indexer/handlers/candidate.ts:28-83 | a pass stopped by store failures or a malformed event leaves the table a clean pass over some prefix of the batch would leave |
| CandidateHandler.CandidatesReplayAfterFailures | backend/src/indexer/handlers/candidate.ts:28-83 | crash safety: after a pass with any store failures (which leaves the cursor unsaved), re-applying the page on a healthy store gives the table of one clean pass |
| CandidateHandler.CandidatesOnePerPair | backend/src/indexer/handlers/candidate.ts:57-80 | after a normal return every pair of the batch has exactly one row, and rows already present (their digest included) are unchanged |
| CandidateHandler.UpsertAllKeeps | backend/src/indexer/handlers/candidate.ts:68 | a row that a lookup already finds is still the one found after the rest of the batch, because the update branch is empty |
| CandidateHandler.CandidatesFirstWins | backend/src/indexer/handlers/candidate.ts:57-80 | for a pair new to the table, the row kept is the batch's first event with that pair, once the batch has reached it; later events with the same pair change nothing, because the update branch is empty |
| CandidateHandler.CandidatesAbortAt | backend/src/indexer/handlers/candidate.ts:28-83 | a throw ends the batch at some event: the events before it are applied, and it and the events after it have no effect |
| CandidateHandler.HandleCandidateRegistered | backend/src/indexer/handlers/candidate.ts:22-84 | the candidates table and the thrown error are those of the fold over the batch; no other table changes, so the read API's snapshot becomes `Replay.AfterRegistered` of the old one; the unique constraints hold |
| ElectionRoutes.ListElections | backend/src/routes/elections.ts:23-52 | every election is listed, newest first, with its name, creator and three counts; `hasEnded` holds exactly when it has a result |
| ElectionRoutes.ListElectionsNewestFirst | backend/src/routes/elections.ts:36-38 | the election stored last is listed first, and every stored election is listed |
| ElectionRoutes.GetElection | backend/src/routes/elections.ts:65-104 | an unknown id gives 404 `Election not found`; otherwise the detail lists exactly the election's candidates and voters and its vote count; `result` is null exactly when there is no result and otherwise carries the stored winner and total |
| ElectionRoutes.Tally | backend/src/routes/elections.ts:130-133 | a candidate's vote count is the number of votes for it in its election, zero exactly when there is none |
| ElectionRoutes.ListCandidates | backend/src/routes/elections.ts:115-140 | exactly the election's candidates are listed, one tally each; the list is empty exactly when the election has no candidate rows (no 404) |
| ElectionRoutes.StatusOf | backend/src/routes/elections.ts:159-162 | `hasVoted` holds exactly when some vote in the voter's election was cast by it |
| ElectionRoutes.ListVoters | backend/src/routes/elections.ts:146-169 | exactly the election's voters are listed, one status each |
| ElectionRoutes.ListVotes | backend/src/routes/elections.ts:175-198 | exactly the election's votes are listed, each once, position `i` holding the `i`-th newest |
| Table.NewestFirstAppend | backend/src/routes/elections.ts:175-198 | a row inserted last heads the newest-first listing, ahead of the listing as it was |
| ElectionRoutes.ListVotesNewestFirst | backend/src/routes/elections.ts:175-198 | a newly stored vote of the election heads the list, ahead of the earlier list; a vote of another election leaves the list unchanged |
| ElectionRoutes.PercentageOf | backend/src/routes/elections.ts:243-245 | the `'0.00'` branch (`ZeroPercent`) is taken exactly when no vote was cast; otherwise the share is the pair (votes, total) |
| ElectionRoutes.InsertByVotes | backend/src/routes/elections.ts:218-222 | inserting into a list ordered by vote count keeps it ordered and adds exactly the new entry |
| ElectionRoutes.SortByVotes | backend/src/routes/elections.ts:218-222 | the candidates come out ordered by vote count, highest first, as a permutation of the input |
| ElectionRoutes.ResultOf | backend/src/routes/elections.ts:240-246 | a candidate's line has its vote count, never more than the election's votes, and its share of the total |
| ElectionRoutes.SameMembers | backend/src/routes/elections.ts:218-222 | reordering keeps exactly the same candidates |
| ElectionRoutes.RankedCandidates | backend/src/routes/elections.ts:209-223 | the lines are ordered by vote count, form a permutation of the election's candidates' lines and contain exactly those lines |
| ElectionRoutes.WinnerOf | backend/src/routes/elections.ts:238 | the winner is reported exactly when there is a result whose winner is truthy |
| ElectionRoutes.GetResults | backend/src/routes/elections.ts:204-252 | `totalVotes` is the number of the election's vote rows; `hasEnded` holds exactly when it has a result; a reported winner is stored and non-empty; the candidates are ordered by votes and are exactly the election's |
| ElectionRoutes.ResultsWithinTotal | backend/src/routes/elections.ts:240-246 | no candidate has more votes than the total, and with no vote cast every share is `'0.00'` |
| Replay.RankingIgnoresResults | backend/src/routes/elections.ts:209-223 | the ranking reads only votes and candidates |
| Replay.EndedElectionStaysFinal | election.ts:110-117 | once ended, an election's detail and results view survive any later end batch, a replay included |
| Replay.EndedOnlySetsHasEnded | election.ts:74-138 | an end batch changes the election list only by turning `hasEnded` on |
| Replay.EndedEventEndsElection | election.ts:119-129 | an accepted end event for a stored election makes it ended in the detail and the results view |
| Replay.FirstEndedEventDecides | election.ts:110-129 | the first accepted end event of an election decides the winner and total the API reports |
| Replay.RegisteredCandidatesListed | backend/src/indexer/handlers/candidate.ts:57-80 | after a completed batch, every registered candidate is listed for its election |
| Replay.CreateThenEndScenario | election.ts:21-138 | a concrete create-then-end run: zero counts before the end; afterwards the detail shows the on-chain total 3 while the results view counts 0 vote rows; replaying the end changes nothing |

## Left out

- Ledger RPC: `queryEvents`, the client singleton and the network choice in backend/src/sui/client.ts are network I/O. An event page is an input sequence.
- Store plumbing: the connection in backend/src/db/index.ts, the Express server, the route mounting and the health route are I/O and framework glue. Store failures are inputs: a set of batch positions for the handlers, a flag for `saveLatestCursor`, and a set of registry positions for the cursor reads in `setupEventListeners`.
- EventIndexer.GetLatestCursor: a store failure in `findUnique` is not a result of this function; `SetupEventListeners` models that throw, the only call site, through its `failures` input.
- The store schema is not part of this model. The relations are assumptions: votes join a candidate on (election, candidate address) and a voter on (election, voter address). A rejection by a foreign key is one more store failure.
- The `id` and `createdAt` columns, and `toISOString`, are left out. Newest first is reverse insertion order.
- Scheduling: `runEventJob` has an empty body, and the `setTimeout` loops start all trackers at once. Neither is modelled; only the delay rule its comments state is (`EventIndexer.NextPollDelay`).
- The voter and vote handlers, and the election handlers of backend/src/indexer/handlers/election.ts, are empty loops. The voters and votes tables are inputs to the read API and are never written by the model.
- Logging, and the 500 responses of the route catch blocks, are left out.
- ElectionRoutes.PercentageOf: the share for a non-zero total is floating point formatted with `toFixed(2)`. It is kept as the pair (votes, total) and not rendered as text.
- ElectionRoutes.SortByVotes: the store's order among candidates with equal vote counts is unspecified. The model keeps table order for ties, but no contract states this.
- ElectionRoutes.GetElection: the candidate and voter address lists are stated by membership, not by their order, which the store chooses.
- ElectionRoutes.ListCandidates: the contract states membership and length, not the table order of the list.
- ElectionRoutes.ListVoters: the contract states membership and length, not the table order of the list.
- Types.NumberOf: JavaScript `Number` also accepts signs, decimals, exponents, hexadecimal and surrounding blanks. Only decimal numerals are modelled; any other text is NaN, which the store rejects.
- Payload fields are strings or absent. `String(...)` of a numeric JSON field, and truthiness of the number 0, are not modelled.
- The width of the store's integer column for `totalVotes` is not modelled. A total beyond it would be one more store failure.
- Config.LoadConfig: `parseInt` of `PORT` and `POLLING_INTERVAL_MS` is left out, so both stay the text that `parseInt` would read. Loading the `.env` file is I/O.
- Cursor monotonicity across polls is not stated, because the polling step that would advance the cursor is a placeholder.

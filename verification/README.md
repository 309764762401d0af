# Verified model of the payment kernel's concurrency and money-safety core

A Dafny 4.11 model of the parts of the payment kernel where a mistake moves money twice, fulfils an order twice, or
hands one job to two workers. `dafny verify dfyconfig.toml` checks everything.

| file | models |
|---|---|
| `LeaseStore.dfy` | the lease-fenced reconciliation job store, operation by operation, on values |
| `LeaseRuns.dfy` | whole runs of that store: exclusivity, fencing, attempts, generations, capacity |
| `LeaseReplies.dfy` | what each call of a run answers, and what it does to the rows, exactly |
| `MemoryStore.dfy` | the store as a mutable object, each method proved equal to its step in `LeaseStore.dfy` |
| `Reservations.dfy` | the idempotency fence around a provider POST, for both gateways that have one, interleaved with crashes and store failures |
| `Snapshots.dfy`, `Lookup.dfy`, `Policy.dfy` | comparison, ordered lookup and decision, and what they guarantee together |
| `CycleKeys.dfy`, `FindCycles.dfy` | cycle detection in the workspace dependency graph |
| `Utf8.dfy`, `HesabeCrypto.dfy`, `HesabeText.dfy` | text as code units and UTF-8, and AES-CBC payloads with standard and legacy padding |
| `HesabeAuth.dfy` | singleflight merchant authentication |
| `MapPool.dfy` | the bounded-concurrency pool behind batch reconciliation |
| `CheckoutKernel.dfy` | the example checkout kernel's order book |
| `Refunds.dfy` | MyFatoorah refund arithmetic over runs |

## How the model reads the code

Time is an integer number of milliseconds and is passed to each operation; the random part of a lease token is a
parameter, and the run lemmas say where they need it never to repeat. A run of the job store is the sequence of calls
with their replies and the store states between them. `RowMoves` states what one call can do to one row, whichever row
the call was aimed at, and the lemmas of `LeaseRuns.dfy` look at the store through it only; `LeaseReplies.dfy` adds
what each call answers.

The reservation and authentication protocols are state machines over the pieces of code that run without interruption,
with any number of callers. The reservation additionally has its sequential form as a method, proved to take exactly the
protocol's steps. The store behind it is assumed to insert atomically if absent and never to expire a record by
itself; a store call that reports an error has taken effect, never will, or takes effect at any later time.
Fingerprints are taken to be injective.

Money is a currency with either integer minor units or text that does not parse. Unparseable text equals only itself, is
never proven zero, and counts as moved funds. The paid-like set is exactly `paid`
(packages/core/src/types/domain-status.ts:201-215).

The block cipher is any invertible function on 16-byte blocks; the platform's AES-CBC primitive is taken to chain it,
to add PKCS#7 padding when encrypting, and to remove that padding or fail when decrypting. Text is a sequence of
16-bit code units, surrogates included. The platform's `TextEncoder` and strict `TextDecoder` are taken to behave as
written out in `Utf8.dfy` (RFC 3629; unpaired surrogates are replaced when encoding, a leading byte order mark is
dropped when decoding); what follows from that is proved. The hex argument of a decryption is a sequence of
characters.

## Where the code differs from what is said about it

- packages/reconciliation/src/store.ts:213 says that `get` soft-releases an expired lease. The code at
  packages/reconciliation/src/memory-store.ts:378-381 only reads; the model follows the code.
- Decrypting does not give back a plaintext that starts with a byte order mark, nor one with an unpaired surrogate,
  which the encoder replaces. `HesabeText.DecryptInvertsEncrypt` proves that there is no other exception.
- The fallback encoder at packages/core/src/runtime/crypto-portable.ts:26-47 joins a high surrogate with whatever
  follows it and encodes other unpaired surrogates as they are. `Utf8.FallbackAgreesIff`: it agrees with the
  platform's encoder exactly on well-formed text.
- One-step convergence after `update_local_to_failed` fails when the local status was absent and a raw authorization
  status hid a capture total that differs from the expected charge. `Reconciliation.FailedUpdateConvergesIff` gives
  the exact condition and `Reconciliation.FailedUpdateNeedNotConverge` a concrete input.
- packages/reconciliation/src/policy.ts:655-669 provides a retry for a settling payment whose zero capture differs
  from the expected charge. The comparison never reports that difference
  (`Reconciliation.SettlingZeroCaptureNeverDrifts`), and a status that merely moved from pending to processing goes to
  drift review, not to a retry.
- The deduplication key of a cycle joins node names with an arrow. Two different cycles can share a key when a name
  contains that arrow, and then one of them is lost (`FindCycles.ArrowsInNamesCollide`: on a concrete graph this
  happens to whatever the search records). `FindCycles.AllKeptIffKeysTellApart` gives the exact condition under which
  every found cycle is a rotation of a returned one: found cycles with equal keys are rotations. Arrow-free names
  guarantee it (`FindCycles.ArrowFreeKeysTellApart`), and package names cannot contain the arrow.
- A refund that the provider brings back after cancelling it can break the refund bound:
  `Refunds.RevivalBreaksTheBound` does so from empty books. `Refunds.BoundHoldsIffRevivalsFit` gives the exact
  condition: the bound holds over a run exactly when whatever comes back still fits into what is left at that moment.
- "At most one request behind the reservation" fails for MyFatoorah's create
  (packages/gateway-myfatoorah/src/gateway.ts:653-661): it sends again when the provider refuses the first request
  with a complaint that the idempotency header is not supported. The reservation is used only where that header is
  never sent (packages/gateway-myfatoorah/src/gateway.ts:235-246, 486-489), so the complaint must be about a header
  the provider did not get. `Reservations.SecondRequestHappens` is such a run, and `Reservations.SecondRequestIff`
  says that nothing else leads to a second request. After an ambiguous failure that gateway throws and leaves the
  record in progress, where Hesabe stores `unknown`; both keep the fence.

## Model

| member | source | states |
|---|---|---|
| LeaseStore.FirstVictim | packages/reconciliation/src/memory-store.ts:129-135 | the eviction victim is the oldest row that is not a running claim; there is none only if every row is one |
| LeaseStore.MakeRoom | packages/reconciliation/src/memory-store.ts:125-143 | eviction drops only rows without a running lease, changes no other row, and gives up only when nothing but running claims is left |
| LeaseStore.ListFromRows | packages/reconciliation/src/memory-store.ts:387-393 | a listing leaves each row as it was or soft-released, and nothing else |
| LeaseStore.ListingReturnsTheOldestDue | packages/reconciliation/src/memory-store.ts:383-395 | a listing returns the first due rows in insertion order, cut at the limit but never below one |
| LeaseStore.TerminalListingReturnsTheOldest | packages/reconciliation/src/memory-store.ts:397-407 | the dead-letter listing returns the first failed or manual-review rows in insertion order, cut at the limit |
| LeaseStore.DeleteFromDrops | packages/reconciliation/src/memory-store.ts:409-427 | cleanup removes only terminal rows that are old enough and changes no other row |
| LeaseStore.CleanupRemovesTheOldest | packages/reconciliation/src/memory-store.ts:409-427 | cleanup removes exactly the oldest disposable rows its limit allows, and reports their number |
| LeaseRuns.EveryCallSequenceRuns | packages/reconciliation/src/memory-store.ts:81-427 | every sequence of calls, whatever its clock and nonces, is the call sequence of a run |
| LeaseRuns.EveryStepMovesRows | packages/reconciliation/src/memory-store.ts:98-427 | every call moves every row in one of the listed ways, whichever key it names |
| LeaseRuns.RefusedCallsChangeNothing | packages/reconciliation/src/memory-store.ts:265-376 | a refused complete, fail, manual review or renewal leaves all rows and their order unchanged |
| LeaseRuns.LeaseHolds | packages/reconciliation/src/memory-store.ts:98-143 | over any run with a monotone clock a granted lease stays on its row until its deadline or until its own token is used |
| LeaseRuns.NoSecondHolderWithinALease | packages/reconciliation/src/memory-store.ts:227-263 | until a lease's deadline every other claim on its key is turned away, unless the holder ended or renewed it |
| LeaseRuns.ClaimAcquiresIff | packages/reconciliation/src/memory-store.ts:227-263 | a claim succeeds exactly on a present, open, due row without a running lease |
| LeaseRuns.ClaimedRowHoldsLatestGrant | packages/reconciliation/src/memory-store.ts:245-286 | a claimed row carries the token and deadline of the latest grant on its key |
| LeaseRuns.AcceptedCallsHoldTheLatestLease | packages/reconciliation/src/memory-store.ts:265-376 | every accepted fenced call presents the latest grant's token, before its deadline unless it reports a failure |
| LeaseRuns.TokenGoneAfterUse | packages/reconciliation/src/memory-store.ts:289-376 | a used token never returns to its row |
| LeaseRuns.TokenIsUsedAtMostOnce | packages/reconciliation/src/memory-store.ts:265-376 | with fresh nonces each token is accepted at most once in a whole run, on any key |
| LeaseRuns.AttemptsAreAccounted | packages/reconciliation/src/memory-store.ts:98-263 | attempts equal the accepted failures since the row was opened, plus one while claimed, completed or in review; the clamp never takes effect |
| LeaseRuns.RowsKeepTheirJob | packages/reconciliation/src/memory-store.ts:177-376 | a row keeps the subject and reason it was opened with, the last due time and error set for it, and the latest claimant while claimed |
| LeaseRuns.GenerationNeverFalls | packages/reconciliation/src/memory-store.ts:188-283 | while a row survives its generation never falls and every grant raises it |
| LeaseRuns.RunStaysWithinCap | packages/reconciliation/src/memory-store.ts:125-143 | a run never holds more rows than the cap |
| LeaseRuns.CapacityRefusalEvictsNothing | packages/reconciliation/src/memory-store.ts:125-143 | a schedule refused for lack of room evicted nothing and found only running claims |
| LeaseReplies.FencedCallsAcceptedIff | packages/reconciliation/src/memory-store.ts:265-376 | a complete, failure, review or renewal is let through exactly when its row is still claimed, its token is the latest grant's, and, unless it is a failure, that grant has not run out |
| LeaseReplies.WorkersInTimeAreAccepted | packages/reconciliation/src/memory-store.ts:227-376 | a worker whose lease is still running and whose token is unused is always let through, and nobody else, failures aside |
| LeaseReplies.RenewalRefusals | packages/reconciliation/src/memory-store.ts:265-287 | each reason for refusing a renewal has its exact condition on the row |
| LeaseReplies.ClaimReplies | packages/reconciliation/src/memory-store.ts:227-263 | each answer to a claim has its exact condition on the row as it stood, and shows the row as it stands afterwards |
| LeaseReplies.ScheduleReplies | packages/reconciliation/src/memory-store.ts:125-225 | a schedule reopens an ended row, leaves an open one alone, and is refused exactly when every row of a full store is a running claim; otherwise the oldest row without a running lease makes room |
| LeaseReplies.CrashesExactlyWhenArmed | packages/reconciliation/src/memory-store.ts:84-96 | a call fails with the injected crash exactly when it mutates and a crash is armed, and then changes nothing but the flag |
| LeaseReplies.ChangesAreStamped | packages/reconciliation/src/memory-store.ts:98-376 | a row that changes and stays carries the time of the call that changed it |
| LeaseReplies.ReadReplies | packages/reconciliation/src/memory-store.ts:378-381 | a read shows the row as it is and changes nothing |
| LeaseReplies.DueListReplies | packages/reconciliation/src/memory-store.ts:383-395 | a listing answers with the first due rows up to its limit, and requeues the lapsed claims it looked at on the way and no other |
| LeaseReplies.TerminalListReplies | packages/reconciliation/src/memory-store.ts:397-407 | the dead-letter listing answers with the first failed or review rows up to its limit |
| LeaseReplies.CleanupReplies | packages/reconciliation/src/memory-store.ts:409-427 | a cleanup answers with the number of rows it took out, the oldest disposable ones, and changes no other |
| LeaseReplies.RowsKeepTheirPlaces | packages/reconciliation/src/memory-store.ts:177-427 | no call but a schedule reorders the rows that stay |
| MemoryStore.MemoryReconciliationStore.ReleaseExpiredLease | packages/reconciliation/src/memory-store.ts:98-123 | in place, a lapsed claim becomes queued and gives its attempt back |
| MemoryStore.MemoryReconciliationStore.EnforceCapacity | packages/reconciliation/src/memory-store.ts:125-143 | in place, the eviction loop does what the capacity rule says |
| MemoryStore.MemoryReconciliationStore.ScheduleJob | packages/reconciliation/src/memory-store.ts:177-225 | in place, schedule inserts, reopens or refuses as its step says |
| MemoryStore.MemoryReconciliationStore.ClaimJob | packages/reconciliation/src/memory-store.ts:227-263 | in place, claim releases, refuses or grants as its step says |
| MemoryStore.MemoryReconciliationStore.RenewLease | packages/reconciliation/src/memory-store.ts:265-287 | in place, renewal rotates the token of a running lease only |
| MemoryStore.MemoryReconciliationStore.CompleteJob | packages/reconciliation/src/memory-store.ts:289-309 | in place, completion is what its step in a run is, so `LeaseReplies.FencedCallsAcceptedIff` says when it is accepted |
| MemoryStore.MemoryReconciliationStore.FailJob | packages/reconciliation/src/memory-store.ts:311-348 | in place, failure needs the token, and reschedules or ends the job |
| MemoryStore.MemoryReconciliationStore.SendToManualReview | packages/reconciliation/src/memory-store.ts:350-376 | in place, review needs the token of a running lease and keeps the note |
| MemoryStore.MemoryReconciliationStore.GetJob | packages/reconciliation/src/memory-store.ts:378-381 | reading changes nothing, not even a lapsed lease |
| MemoryStore.MemoryReconciliationStore.ListDueJobs | packages/reconciliation/src/memory-store.ts:383-395 | in place, the listing loop releases and collects as its step says |
| MemoryStore.MemoryReconciliationStore.ListTerminalJobs | packages/reconciliation/src/memory-store.ts:397-407 | the dead-letter loop collects as its step says |
| MemoryStore.MemoryReconciliationStore.DeleteExpiredJobs | packages/reconciliation/src/memory-store.ts:409-427 | in place, the cleanup loop removes and counts as its step says |
| MemoryStore.MemoryReconciliationStore.ArmCrash | packages/reconciliation/src/memory-store.ts:157-164 | in place, a crash is armed for the next guarded call, or for all of them |
| Reservations.ApplyKeepsSafe | packages/gateway-hesabe/src/reservations.ts:45-100 | every step of every caller of either gateway, with any crash, store failure or late store effect, keeps the fence's invariant |
| Reservations.AtMostOnePost | packages/gateway-myfatoorah/src/gateway.ts:646-664 | in every interleaving every request sent for the key but one was refused with a complaint about the idempotency header: Hesabe sends at most one, MyFatoorah at most two |
| Reservations.SecondRequestIff | packages/gateway-myfatoorah/src/gateway.ts:650-661 | over any run a second request goes out exactly when a caller whose first one was refused with such a complaint sends again |
| Reservations.SecondRequestHappens | packages/gateway-myfatoorah/src/gateway.ts:653-661 | a concrete run from the start that sends two requests |
| Reservations.SubmissionKeepsTheFence | packages/gateway-hesabe/src/reservations.ts:68-98 | once a caller has set the submitted flag the record stands for good, under that caller's parameters |
| Reservations.OnlyAnUnsubmittedHolderReleases | packages/gateway-hesabe/src/reservations.ts:75-85 | the record goes away exactly when its holder, having submitted nothing, deletes it, at once or through a late effect |
| Reservations.CompletedRecordsStand | packages/gateway-hesabe/src/reservations.ts:86-99 | a completed record is never overwritten or removed |
| Reservations.SettledAnswersAgree | packages/gateway-hesabe/src/reservations.ts:51-60 | all settled answers ever given on the key are equal, are what the record holds, and go only to callers with the record's parameters |
| Reservations.ResultsComeFromTheProvider | packages/gateway-hesabe/src/reservations.ts:68-99 | a result that was settled or stored came from a readable answer to a request of some caller, or was found by one before submitting |
| Reservations.SettledIff | packages/gateway-hesabe/src/reservations.ts:47-100 | over any run a caller is answered with a result exactly when it stored that result, or found it stored under its own parameters in a form it can read |
| Reservations.ResultsAreAnsweredAndStored | packages/gateway-hesabe/src/reservations.ts:86-99 | a caller that gets a readable result and stores it without crashing in between is answered with it, and it is on record |
| Reservations.TakenKeysAnswer | packages/gateway-hesabe/src/reservations.ts:51-65 | a taken key is answered by the stored result, or by the refusal its record calls for, each under its exact condition |
| Reservations.AmbiguousFailuresKeepTheRecord | packages/gateway-hesabe/src/reservations.ts:86-99 | after an ambiguous failure Hesabe stores `unknown` and answers so; MyFatoorah throws and leaves the record in progress |
| Reservations.StoreCallsWrite | packages/gateway-hesabe/src/reservations.ts:45-98 | a store call inserts if absent, deletes or overwrites: at once, never, or later over whatever record it then finds |
| ProviderPost.FatesAreReportedExactly | packages/gateway-myfatoorah/src/http.ts:146-169 | every fate of a request is readable, ambiguous or a refusal, and each is reported as exactly one outcome or error |
| Reservations.WithReservation | packages/gateway-myfatoorah/src/create-reservation.ts:36-94 | the sequential reservation, with either gateway's way of sending and failing, takes exactly the protocol's steps, sends what they send, and ends as the table `CallEnds` says for each outcome and store fault |
| Compare.ComparisonIsExact | packages/reconciliation/src/compare.ts:165-267 | the comparison is empty exactly when every known field agrees, and is the status alone exactly when only the status differs |
| Compare.ComparisonListsTheDifferences | packages/reconciliation/src/compare.ts:165-267 | exactly the fields that differ are listed, with both sides and in field order |
| Lookup.ResolveProviderSnapshot | packages/reconciliation/src/lookup.ts:98-232 | the lookup loop returns the verdict of the first step that does not miss |
| Lookup.KeysAreAskedInOrder | packages/reconciliation/src/lookup.ts:98-232 | that verdict, on the target's and port's own fields: the payment id's answer if it is known, can be asked and does not miss; else the idempotency key's; else the local reference's; else the provider request id's; no keys, no methods and not found exactly when none is left |
| Lookup.Reconcile | packages/reconciliation/src/reconciler.ts:69-76 | one target is reconciled by that lookup, in that order |
| Lookup.ExposesOnlyTheSoleMatch | packages/reconciliation/src/lookup.ts:164-195 | a payment is exposed exactly when the first decisive step found it alone and it is not known to be another |
| Lookup.NeverExposesAForeignPayment | packages/reconciliation/src/lookup.ts:237-268 | an exposed payment has the target's known payment id |
| Lookup.SeveralMatchesStayAmbiguous | packages/reconciliation/src/lookup.ts:172-177 | several matches are reported whole, and ambiguity is reported for nothing else |
| Lookup.NotFoundMeansEveryStepMissed | packages/reconciliation/src/lookup.ts:197-232 | not-found is reported exactly when every runnable step found nothing or could not use its key |
| Lookup.UnavailableMeansTheDecisiveStepFailed | packages/reconciliation/src/lookup.ts:156-219 | the provider counts as unavailable exactly when the first step that did not miss failed, threw or was unavailable |
| Policy.ScanInFlightDrift | packages/reconciliation/src/policy.ts:309-344 | the scan accepts exactly the differences an unfinished settlement explains, with a zero capture among them |
| Reconciliation.PaidIsDecidedExactly | packages/reconciliation/src/policy.ts:454-601 | a paid update is decided exactly for the sole, matching, cleanly paid payment under an open local status, with every money field agreeing |
| Reconciliation.FailedIsDecidedExactly | packages/reconciliation/src/policy.ts:496-641 | a failed update is decided exactly for the sole, matching payment that failed without captured or refunded money |
| Reconciliation.ConsistencyIsDecidedExactly | packages/reconciliation/src/policy.ts:521-581 | nothing-to-do is decided exactly when all known fields agree and no money state is left open or unaccounted |
| Reconciliation.SettlingZeroCaptureNeverDrifts | packages/reconciliation/src/policy.ts:655-669 | the settling zero-capture drift the policy provides for is never produced by the comparison |
| Reconciliation.WaitingIsDecidedExactly | packages/reconciliation/src/policy.ts:521-531 | retry is decided exactly for an unavailable provider or an agreeing, still settling one; other drift goes to review with the whole comparison |
| Reconciliation.DeterminateLocalsAreNeverUpdated | packages/reconciliation/src/policy.ts:583-641 | a settled local status is never turned into paid or failed |
| Reconciliation.PaidUpdateConverges | packages/reconciliation/src/compare.ts:206-238 | after a paid update the same snapshot is consistent |
| Reconciliation.FailedUpdateConvergesIff | packages/reconciliation/src/compare.ts:112-123 | after a failed update the same snapshot is consistent exactly when no raw hold status hid a capture total |
| Reconciliation.FailedUpdateNeedNotConverge | packages/reconciliation/src/compare.ts:206-238 | a concrete failed payment that does not converge |
| Reconciliation.ReplacementGuardFollowsTheDecision | packages/reconciliation/src/policy.ts:765-798 | the replacement guard forbids a charge under every updating or waiting decision, and relents only against settled local and empty provider money |
| Reconciliation.RecordedOutcomeSettlesReplacement | packages/reconciliation/src/policy.ts:765-798 | a new charge is forbidden before a decided update is recorded; after it the same snapshot allows one exactly for a failure, and after a payment no later result does |
| Reconciliation.EveryDecision | packages/reconciliation/src/policy.ts:449-744 | the decision for every result of the lookup, written out on statuses and totals |
| Reconciliation.ReplacementAllowedIff | packages/reconciliation/src/policy.ts:765-798 | a new charge is allowed exactly when a payment was found and neither side holds or may hold money |
| CycleKeys.RotationsShareTheirKey | scripts/check-workspace-boundaries.ts:1697-1706 | rotations of one cycle have one key |
| CycleKeys.EqualKeysMeanRotations | scripts/check-workspace-boundaries.ts:1701-1705 | without arrows in names, equal keys mean rotations of one another |
| FindCycles.ClosedWalksCross | scripts/check-workspace-boundaries.ts:1674-1691 | every closed walk among finished nodes uses the closing edge of a recorded cycle |
| FindCycles.Search.Dfs | scripts/check-workspace-boundaries.ts:1674-1691 | in place, a visit does what `Visit` does: successors in order, each back edge recorded as the stack from its target on |
| FindCycles.VisitIsSound | scripts/check-workspace-boundaries.ts:1674-1691 | a visit restores the stack, records only simple cycles, and either finishes its node or records a cycle closed by the edge to it |
| FindCycles.Deduplicate | scripts/check-workspace-boundaries.ts:1697-1709 | the loop keeps the first cycle of every key |
| FindCycles.FirstOfEveryKeyIsKept | scripts/check-workspace-boundaries.ts:1697-1709 | the kept cycles are exactly the first found of every key, in the order in which they were found |
| FindCycles.UniqueIsRotationFree | scripts/check-workspace-boundaries.ts:1697-1709 | no two kept cycles are rotations of each other |
| FindCycles.AllKeptIffKeysTellApart | scripts/check-workspace-boundaries.ts:1697-1709 | every found cycle is a rotation of a kept one exactly when found cycles with equal keys are rotations |
| FindCycles.ArrowFreeKeysTellApart | scripts/check-workspace-boundaries.ts:1703-1705 | without arrows in names, cycles of the graph with equal keys are rotations |
| FindCycles.ArrowsInNamesCollide | scripts/check-workspace-boundaries.ts:1703-1705 | on a concrete graph with an arrow in a name, whatever the search records, some recorded cycle is no rotation of a kept one |
| FindCycles.ResultsMeetEveryClosedWalk | scripts/check-workspace-boundaries.ts:1697-1709 | when found cycles with equal keys are rotations, every closed walk still shares an edge with a kept cycle |
| FindCycles.FindCycles | scripts/check-workspace-boundaries.ts:1668-1710 | the result is non-empty exactly when the graph has a directed cycle, and holds simple cycles, one per rotation class; the closing edges of the recorded cycles meet every closed walk, and every recorded cycle is represented exactly when equal keys mean rotations |
| Bytes.HexRoundTrip | packages/core/src/runtime/crypto-portable.ts:53-90 | hex decoding inverts hex encoding |
| Bytes.HexIsReadExactly | packages/gateway-hesabe/src/crypto.ts:34-47 | a text is read as some bytes exactly when it spells them in hex digits of either case |
| Bytes.TrimmedHexIsReadExactly | packages/gateway-hesabe/src/crypto.ts:34-47 | spaces around the hex, and only there, are ignored |
| Bytes.SpacesAre | packages/gateway-hesabe/src/crypto.ts:35 | the characters a trim removes are the listed white space and line ends |
| Cbc.BlocksAreChained | packages/gateway-hesabe/src/crypto.ts:83-105 | each block is enciphered against the ciphertext block before it, the first against the vector |
| Cbc.DecryptAfterEncrypt | packages/gateway-hesabe/src/crypto.ts:83-105 | chained decryption inverts chained encryption |
| Cbc.AppendedBlockExposesTheBytes | packages/gateway-hesabe/src/crypto.ts:130-147 | one appended padding block makes the primitive return the original bytes |
| Cbc.DecryptPayload | packages/gateway-hesabe/src/crypto.ts:121-155 | the two-stage decryption gives the standard reading, or else the legacy one |
| Cbc.BothPaddingsDecrypt | packages/gateway-hesabe/src/crypto.ts:107-155 | both encodings of a text decrypt to it, including short legacy padding |
| Cbc.AcceptsExactlyTheTwoPaddings | packages/gateway-hesabe/src/crypto.ts:49-60 | a ciphertext decrypts to a text exactly when it is one of that text's two encodings |
| Cbc.PaddingFormsAreDisjoint | packages/gateway-hesabe/src/crypto.ts:49-60 | no bytes carry both accepted paddings; the two encodings of a text coincide exactly when the last 32-byte unit is at least half full |
| HesabeText.HesabeEncrypt | packages/gateway-hesabe/src/crypto.ts:83-105 | a wrong key or vector is refused; otherwise the lower-case hex of the padded, chained UTF-8 of the text |
| HesabeText.HesabeDecrypt | packages/gateway-hesabe/src/crypto.ts:112-164 | the two-stage decryption gives what `DecryptedText` says, which the rows below characterise |
| HesabeText.PayloadsAreReadExactly | packages/gateway-hesabe/src/crypto.ts:34-47 | a payload is usable exactly when it spells whole blocks up to spaces around it; other hex is refused for its size, and an empty one as no hex |
| HesabeText.OtherPayloadsAreNotHex | packages/gateway-hesabe/src/crypto.ts:34-41 | a payload that spells no bytes is refused as no hex |
| HesabeText.RefusalsAreExact | packages/gateway-hesabe/src/crypto.ts:112-164 | the exact condition of every refusal of a payload, in the order hex, blocks, key, vector and padding, text |
| Utf8.ReadingRepairs | packages/core/src/runtime/crypto-portable.ts:18-25 | encoding replaces exactly the unpaired surrogates by U+FFFD and keeps every other unit in place |
| Utf8.WellFormedIff | packages/core/src/runtime/crypto-portable.ts:26-47 | a text is well formed exactly when none of its surrogates is unpaired |
| Utf8.CharactersAreLaidOut | packages/core/src/runtime/crypto-portable.ts:18-25 | every character has the bytes RFC 3629, section 3, lays out for it |
| Utf8.UnitsAreLaidOut | packages/core/src/runtime/crypto-portable.ts:26-47 | so has every unit, and every pair by the low ten bits of its halves, in the fallback encoder |
| Utf8.EncodeInvertsDecode | packages/gateway-hesabe/src/crypto.ts:155-163 | the strict decoder accepts nothing but what the encoder produces |
| Utf8.CodecRoundTrip | packages/core/src/runtime/crypto-portable.ts:18-25 | encoding and decoding give a text back exactly when its surrogates are paired and it starts with no byte order mark |
| Utf8.DecoderAcceptsExactly | packages/gateway-hesabe/src/crypto.ts:155-163 | bytes are read as a text exactly when they are its encoding, with or without a mark |
| Utf8.Utf8EncodeFallback | packages/core/src/runtime/crypto-portable.ts:26-47 | the fallback encoding loop gives the bytes of each code unit or pair in turn |
| Utf8.FallbackAgreesIff | packages/core/src/runtime/crypto-portable.ts:18-47 | the fallback and the platform's encoder agree exactly on well-formed text |
| HesabeText.DecryptInvertsEncrypt | packages/gateway-hesabe/src/crypto.ts:83-164 | decryption inverts encryption exactly for texts whose surrogates are paired and that start with no byte order mark |
| HesabeText.DecryptInvertsLegacy | packages/gateway-hesabe/src/crypto.ts:107-164 | the same for legacy-padded payloads |
| HesabeText.DecryptsExactlyItsEncodings | packages/gateway-hesabe/src/crypto.ts:112-164 | any payload, in either case and with any spaces around it, decrypts to a text exactly when it carries that text's UTF-8, with or without a mark, in one of the two paddings |
| HesabeAuth.PostAuth | packages/gateway-hesabe/src/auth.ts:156-239 | an answer issues a token, rejects the credentials, limits the rate or is network trouble, each under its exact condition |
| HesabeAuth.ParseEnvelope | packages/gateway-hesabe/src/auth.ts:36-68 | a token is issued exactly for a positive, bearer envelope with both tokens and a positive finite lifetime that does not overflow; it holds the envelope's own tokens until the lifetime, in whole milliseconds, is over |
| HesabeAuth.OrdinaryLifetimesAreGranted | packages/gateway-hesabe/src/auth.ts:48-62 | overflow is never met with a real clock and lifetimes of up to a thousand million seconds |
| HesabeAuth.StepKeepsConsistent | packages/gateway-hesabe/src/auth.ts:94-154 | every step keeps flights well-formed and settled flights unchanged |
| HesabeAuth.EveryStepSequenceRuns | packages/gateway-hesabe/src/auth.ts:94-154 | any sequence of calls, answers, deliveries and aborts, with any number of callers, is that of a run |
| HesabeAuth.AtMostOneFlight | packages/gateway-hesabe/src/auth.ts:110-125 | at most one flight is unsettled, and it is the one callers join |
| HesabeAuth.FlightsSendAtMostTwoPosts | packages/gateway-hesabe/src/auth.ts:139-154 | a flight sends at most two requests, the second a login after a rejected refresh |
| HesabeAuth.SettledFlightsStand | packages/gateway-hesabe/src/auth.ts:112-123 | a settled flight never changes |
| HesabeAuth.JoinersGetTheirFlightsResult | packages/gateway-hesabe/src/auth.ts:127-137 | a joiner waits, is aborted, or has its own flight's token or error, never another's |
| HesabeAuth.ServedJoinersHaveTheResult | packages/gateway-hesabe/src/auth.ts:127-137 | once its flight has settled a delivery ends a joiner's wait for good, with the flight's result unless its own signal fired |
| HesabeAuth.OnlyOnesOwnAbortCounts | packages/gateway-hesabe/src/auth.ts:127-137 | a waiting caller ends aborted only by its own signal |
| HesabeAuth.AbortTouchesNobodyElse | packages/gateway-hesabe/src/auth.ts:127-137 | a run and the same run without one abort end alike for every flight, the cache and every other caller |
| HesabeAuth.CachedTokensAreFresh | packages/gateway-hesabe/src/auth.ts:94-108 | a token handed out without a flight was issued by one and has more than a minute left |
| HesabeAuth.CallersGetWhatWasAnswered | packages/gateway-hesabe/src/auth.ts:94-239 | over any run a caller's token is the access token of a good envelope that arrived before, and its error is what an earlier answer meant |
| HesabeAuth.FlightsEndAsAnswered | packages/gateway-hesabe/src/auth.ts:110-154 | a flight ends with what the answer means that arrived while it was under way |
| HesabeAuth.FlightsRefreshTheLatestToken | packages/gateway-hesabe/src/auth.ts:112-150 | the cache holds what was issued last; a flight starts by refreshing exactly that token, or by a login if nothing was issued before |
| HesabeAuth.CallsAreAnsweredExactly | packages/gateway-hesabe/src/auth.ts:94-125 | a call is turned away, served from a cache with over a minute left, or joins the one flight, starting it if there is none |
| HesabeAuth.AnswersAreTakenExactly | packages/gateway-hesabe/src/auth.ts:112-154 | a rejected refresh is followed by a login; any other answer ends the flight, clears it, and is cached exactly if it issues a token |
| HesabeAuth.WaitsEndExactly | packages/gateway-hesabe/src/auth.ts:127-137 | an abort ends a wait exactly while the flight is under way, and a delivery exactly afterwards, with the flight's token or error |
| HesabeAuth.Authenticator.GetAccessToken | packages/gateway-hesabe/src/auth.ts:94-125 | in place, a call uses the cache or joins the shared flight as its step says |
| HesabeAuth.Authenticator.AnswerArrives | packages/gateway-hesabe/src/auth.ts:110-154 | in place, an answer falls back to login or settles the flight as its step says |
| MapPool.Pool.StartOne | packages/reconciliation/src/reconciler.ts:119-128 | starting a task takes the next index, once |
| MapPool.Pool.Drain | packages/reconciliation/src/reconciler.ts:134-139 | the yield loop ends with every started task yielded and nothing pending, and keeps the pool full until then |
| MapPool.MapPool | packages/reconciliation/src/reconciler.ts:106-140 | every index is yielded exactly once with its own value; exactly min(concurrency, n) tasks run at the peak, tasks start in input order, and as each result comes as many are running as can be |
| MapPool.ReconcileMany | packages/reconciliation/src/reconciler.ts:78-99 | the clamped batch covers every target exactly once, with the pool kept as full as the clamp allows |
| CheckoutKernel.Kernel.Fulfill | examples/checkout-kernel/src/kernel.ts:376-390 | an order is paid once and only under its own payment id |
| CheckoutKernel.Kernel.BeginCreate | examples/checkout-kernel/src/kernel.ts:425-451 | a known order id is refused and a new order starts unpaid |
| CheckoutKernel.Kernel.FinishCreate | examples/checkout-kernel/src/kernel.ts:453-490 | the provider's answer binds the payment id, keeps the order, or forgets it |
| CheckoutKernel.Kernel.HandleWebhook | examples/checkout-kernel/src/kernel.ts:493-554 | a settled webhook pays the one order it is about unless that order is bound elsewhere, and no other order |
| CheckoutKernel.JobMovesExactly | examples/checkout-kernel/src/kernel.ts:604-624 | a job pays or fails an order exactly when it is unpaid and the lookup by its ids ends with a payment that was paid, or failed, for its own amount |
| CheckoutKernel.Kernel.CarryOut | examples/checkout-kernel/src/kernel.ts:613-640 | what each decision does to the order, and the disposition it is answered with |
| CheckoutKernel.Kernel.Reconcile | examples/checkout-kernel/src/kernel.ts:604-640 | a job moves only its own order, only out of unpaid, and only as the policy decided for that order's amount and ids |
| CheckoutKernel.Run | examples/checkout-kernel/src/kernel.ts:376-640 | over any run every order is fulfilled at most once, exactly when paid, and stays paid |
| Refunds.RemainingRefund | packages/gateway-myfatoorah/src/refund-support.ts:95-144 | the accumulation loop gives the invoice less what is refunded or pending, or the right error |
| Refunds.MatchingRefund | packages/gateway-myfatoorah/src/refund-support.ts:67-82 | the last entry carrying the key is found, exactly when there is one |
| Refunds.RefundPayment | packages/gateway-myfatoorah/src/gateway.ts:289-375 | replay first, then the remainder, then the requested amount; a new refund is posted for the amount asked for, or for all that is left |
| Refunds.RefundIsDecidedExactly | packages/gateway-myfatoorah/src/gateway.ts:309-375 | the exact condition of every answer to a refund call, on the invoice and the listed entries |
| Refunds.UsedKeysReplayTheLast | packages/gateway-myfatoorah/src/gateway.ts:309-336 | a used key is answered with the id of the last entry made under it |
| Refunds.CallsAreAnsweredExactly | packages/gateway-myfatoorah/src/gateway.ts:309-375 | on the provider's books an amount is posted exactly under an unused key, for the requested amount if it is positive and left, or for all that is left; each refusal has its exact condition |
| Refunds.RemainingIsConserved | packages/gateway-myfatoorah/src/refund-support.ts:111-143 | what may still be refunded is exactly the invoice less what is held |
| Refunds.BoundHoldsIffRevivalsFit | packages/gateway-myfatoorah/src/refund-support.ts:111-143 | over any run refunded plus pending stays within the invoice exactly when every revived refund still fits as it comes back |
| Refunds.KeysStayDistinct | packages/gateway-myfatoorah/src/gateway.ts:309-336 | over any run, whatever the provider does to statuses, each key has at most one refund |
| Refunds.RunsAreSound | packages/gateway-myfatoorah/src/gateway.ts:309-375 | sound books stay sound over any run whose revivals fit |
| Refunds.ErrorsOccurIff | packages/gateway-myfatoorah/src/refund-support.ts:136-139 | the invalid-remainder error answers exactly a new key while more is held than invoiced, so never unless a revival did not fit; a posted amount is positive and covered |
| Refunds.KeysReplayForever | packages/gateway-myfatoorah/src/gateway.ts:330-336 | a key with a refund only ever replays that refund |
| Refunds.FullRefundLeavesNothing | packages/gateway-myfatoorah/src/gateway.ts:364-386 | after a refund of the rest every new key is refused |
| Refunds.RevivalBreaksTheBound | packages/gateway-myfatoorah/src/refund-support.ts:136-139 | from empty books, for every invoice, a run in which a revived refund makes the remainder invalid |

## Left out

- `withTransaction` and `clear` of the job store: the rollback restores a whole-map snapshot, so interleaved use would undo other workers' calls; `clear` drops rows under running leases.
- ISO timestamp text: times are integers, so an unparseable due time (which the code treats as always due) does not occur.
- The wording of errors and crash messages, and the `message` fields of differences.
- Money with an empty or unknown currency code, for which parsing throws out of the comparison instead of comparing.
- Building a lookup port from a payment getter, and the text of lookup reasons.
- MyFatoorah's refusal to create a payment outside two countries without an idempotency store.
- Reservation records that expire by themselves.
- The reads before a Hesabe refund and the bounded retry of GET requests: they are one unsubmitted step here.
- JSON text, HMAC, SHA and the AES block function.
- Floating-point rounding: token lifetimes are real numbers or not finite, and only the overflow of the expiry is modelled.
- The pool's rejected tasks, which batch reconciliation never produces, and a concurrency of NaN, for which the code would yield nothing.
- The kernel's catalogue, response bodies, scheduler and webhook inbox; the provider lookup of a job may behave in any way, which covers the paid override.
- Interleavings inside the kernel's reconcile handler: its write of `failed` at examples/checkout-kernel/src/kernel.ts:622-624 is not guarded across the await before it, so the fulfil-once result takes that handler as one step.
- Concurrent refunds on one invoice, refund currencies, amounts beyond the safe integer range, and the request retry without the idempotency header.
- The scheduler, the SQL and Redis stores, the Tap gateway and the framework adapters.

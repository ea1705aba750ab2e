# Verification of the tool runtime core

A Dafny 4.11 model of the parts of MagicRun's `tool-runtime-core` whose correctness is hardest to see
by reading, with machine-checked proofs of what they promise. `dafny verify dfyconfig.toml` verifies
the whole project.

## What is modelled

- **Exact-value credential redaction.** `Matching` defines a naive leftmost-longest matcher with two
  renderings of one match list and proves once that no pattern survives. `Redactor` (construction, the
  sorted prefix index, one-shot and record redaction), `SegmentedRedactor` (in place over separate
  buffers) and `StreamingRedactor` (chunks) each refine that definition under the comparison budget.
  `Persistence` seals a batch on top of it.
- **The login lease coordinator.** `LeaseModel` says what one atomic step does, `LeaseCoordinator` is the
  lock-protected object proved against it, `LeaseRuns` proves laws of all runs of one coordinator, and
  `LeaseProcess` laws of all coordinators of a process. `LeaseEffects` spells out what each operation
  changes, what each state allows and what each refusal means. A run may contain refused operations and tokens
  that were never issued; time may run backwards wherever a law does not say otherwise.
- **Typed actions.** `InertWords` is the quoting splitter, `QuotingSyntax` its grammar, `Json` the explicit-stack shape checks,
  `ActionParameters` compilation and run-time validation of parameters, `TypedActions` the cost
  projection against the real lowering, and `ArgumentRules` the restrictions over the final argv.
  `RuntimeAgreement` relates run-time validation to what was declared, and `LoweredTokens` the tokens in
  argv to the values they stand for.
- **Status evaluation.** `JsonNesting` relates the nesting scanner to the structure of JSON text
  (sections 2 and 7 of RFC 8259); `StatusEvaluation` is the rule loop under a shared budget and the
  identity check, and `StatusMeaning` what its results say about the payload.
- **Classification.** `Decisions` validates one authored decision field by field; `ExactCover` and
  `Classification` join a manifest of them to the inventory, and `ClassificationMeaning` reads acceptance
  off the manifest itself.

`Bytes`, `Text` and `Ordering` hold the shared vocabulary.

## Where the code differs from what one might expect

- `request_cancel` has no check for a lease in recovery and relies on staleness alone. If a caller
  passes an earlier time, a lease leaves recovery. `LeaseRuns.RecoveryChangesExactlyWhen` gives the exact
  condition and `LeaseRuns.BackwardClockEscapesRecovery` a run; the positive law assumes times that never
  decrease.
- Publishing, resuming, heartbeats and cancellation change the lease before they build the snapshot, so
  an idle deadline that overflows the clock is reported as an error although the change was made.
  `LeaseRuns.OverflowReportedExactlyWhen` gives the exact condition and `LeaseRuns.OverflowAfterChange` a
  run.
- Readiness looks at a profile's expected identity only if the contract declares one
  (`StatusEvaluation.ReadyExactlyWhen`; `StatusEvaluation.ReadyWithoutIdentity` is a plan that is ready
  without the identity it expects).

## Model

| member | source | states |
|---|---|---|
| Matching.Longest | tool-runtime-core/src/credential_materialization.rs:460-513 | the length of the longest pattern the text starts with: a pattern ends there and no longer prefix is one |
| Matching.LongestIs | tool-runtime-core/src/credential_materialization.rs:484-513 | longest-match is uniquely determined, so every lookup that meets the definition returns the same length |
| Matching.KeepIsBytewise | tool-runtime-core/src/credential_materialization.rs:546-549 | the length-preserving redaction has the input's length and every byte is either kept or the replacement |
| Matching.CollapseNeverGrows | tool-runtime-core/src/credential_materialization.rs:534-543 | the one-shot redaction is never longer than its input |
| Matching.NoPatternSurvives | tool-runtime-core/src/credential_materialization.rs:401-404 | for every pattern set that avoids the replacement byte and every text, no pattern occurs anywhere in either redaction, across former match and gap boundaries included |
| Matching.FreeTextIsFixed | tool-runtime-core/src/credential_materialization.rs:534-543 | a text without any pattern is left unchanged by both redactions |
| Matching.RedactionIsIdempotent | tool-runtime-core/src/credential_materialization.rs:515-544 | redacting an already redacted text changes nothing, in either rendering |
| Matching.MatchListIsUnique | tool-runtime-core/src/credential_materialization.rs:460-482 | a text has exactly one list of leftmost longest matches |
| Matching.RedactionsReplaceTheMatches | tool-runtime-core/src/credential_materialization.rs:534-549 | both redactions replace exactly those matches, by one byte or by their own length, and copy everything else |
| Redactor.Canonical | tool-runtime-core/src/credential_materialization.rs:383-389 | sorting by falling length and then bytes makes equal patterns neighbours, so dropping neighbouring repeats leaves each pattern exactly once |
| Redactor.ChooseReplacement | tool-runtime-core/src/credential_materialization.rs:401-404 | the least unused byte value from `*` on, or below it only if there is none; none at all only if every byte value is used |
| Redactor.New | tool-runtime-core/src/credential_materialization.rs:380-427 | accepts exactly the lists whose distinct patterns are nonempty and within both limits and leave a byte unused; the result's patterns are the input's as a set and its replacement is the first unused byte from `*` on, with wrap-around |
| Redactor.IndexIsValid | tool-runtime-core/src/credential_materialization.rs:405-421 | the sorted prefix table lists every pattern once under the key of its first bytes, longer ones first, and weighs as much as all patterns together |
| Redactor.Redactor.KeyStart | tool-runtime-core/src/credential_materialization.rs:491 | the binary search splits the table into the keys below and the keys not below |
| Redactor.KeysCover | tool-runtime-core/src/credential_materialization.rs:466-480 | trying the two-byte key and then the one-byte key finds the longest pattern at a position, whatever its key |
| Redactor.FirstEntryIsLongest | tool-runtime-core/src/credential_materialization.rs:491-512 | the first table entry of a key that matches is the longest pattern of that key that matches |
| Redactor.MatchAtKey | tool-runtime-core/src/credential_materialization.rs:484-513 | a key lookup returns the longest match under the key, charges at most that key's patterns, and fails only beyond the comparison budget |
| Redactor.TwoKeysCharge | tool-runtime-core/src/credential_materialization.rs:466-480 | the two keys of one position own disjoint table ranges, so together they charge each pattern at most once |
| Redactor.MatchAt | tool-runtime-core/src/credential_materialization.rs:468-478 | both keys of one position together give the longest pattern there for at most the total pattern bytes of work |
| Redactor.FindNext | tool-runtime-core/src/credential_materialization.rs:460-482 | the least position from the start on where any pattern matches with the end of the longest one there, or none exactly when none matches; scanned positions bound the work |
| Redactor.MatchRenders | tool-runtime-core/src/credential_materialization.rs:536-540 | a found match contributes the gap before it unchanged and then one replacement byte, or its own length in replacement bytes |
| Redactor.RedactWithLimits | tool-runtime-core/src/credential_materialization.rs:522-544 | returns the collapsed rendering; each error has its cause: input over the limit, output over the limit, or work over the budget |
| Redactor.Redact | tool-runtime-core/src/credential_materialization.rs:515-520 | never fails on an input within the input limit whose length times the total pattern bytes is within the budget; the output contains no pattern |
| Redactor.InPlaceMatch | tool-runtime-core/src/credential_materialization.rs:693-694 | overwriting a found match keeps the bytes ahead of the scan as they were and the bytes behind it final |
| Redactor.RedactBuffer | tool-runtime-core/src/credential_materialization.rs:690-695 | overwriting matches in place leaves exactly the length-preserving redaction of the buffer |
| Redactor.Concatenate | tool-runtime-core/src/credential_materialization.rs:668-689 | joins the records, or reports the aggregate limit exactly when it is exceeded |
| Redactor.SplitRedactedSegments | tool-runtime-core/src/credential_materialization.rs:963-984 | cuts the stream back at the record lengths; fails exactly on a length mismatch |
| Redactor.RedactSegments | tool-runtime-core/src/credential_materialization.rs:664-697 | records are redacted as one stream and cut back at their own lengths; no pattern occurs across the joined records; failure only over the aggregate limit or the work budget |
| Bytes.RecutIsUnique | tool-runtime-core/src/credential_materialization.rs:963-984 | the cut-back records are the only ones with those lengths and that concatenation |
| SegmentedRedactor.OwningSegment | tool-runtime-core/src/credential_materialization.rs:902-904 | the last segment that starts at or before a position |
| SegmentedRedactor.SegmentedByte | tool-runtime-core/src/credential_materialization.rs:901-907 | reading through the offset table reads the joined text, empty segments included |
| SegmentedRedactor.SegmentOffsets | tool-runtime-core/src/credential_materialization.rs:556-566 | the offset table of the segments, or the input limit exactly when it is exceeded |
| SegmentedRedactor.SpelledIsPrefix | tool-runtime-core/src/credential_materialization.rs:651-653 | comparing byte by byte across segments is comparing with the joined text |
| SegmentedRedactor.MatchSegmentedAt | tool-runtime-core/src/credential_materialization.rs:625-658 | a key lookup across segments agrees with the lookup in the joined text and charges the same |
| SegmentedRedactor.FillSegmented | tool-runtime-core/src/credential_materialization.rs:909-930 | overwriting a range across segments overwrites exactly that range of the joined text and keeps every segment's length |
| SegmentedRedactor.MarkSegmentRange | tool-runtime-core/src/credential_materialization.rs:932-953 | marks exactly the segments that the match touches and clears no mark |
| SegmentedRedactor.TouchedMeansCovered | tool-runtime-core/src/credential_materialization.rs:932-953 | for a nonempty segment being touched means that one of its bytes is covered |
| SegmentedRedactor.ScanStep | tool-runtime-core/src/credential_materialization.rs:572-615 | one step of the in-place scan keeps the finished part final, the rest untouched and the marks exact |
| SegmentedRedactor.RedactGovernedSegmentsOwned | tool-runtime-core/src/credential_materialization.rs:551-623 | without joining the segments, the outputs are the length-preserving redaction of the joined text cut at the original boundaries, and a segment is flagged exactly when a match touches it; failure only over the size limit or the work budget |
| StreamingRedactor.ExtensionKeepsDecision | tool-runtime-core/src/credential_materialization.rs:776-831 | once no pattern can still be completed, later bytes neither lengthen nor undo the match |
| StreamingRedactor.StableExtends | tool-runtime-core/src/credential_materialization.rs:707-769 | settling a text and then its continuation is settling the whole at once |
| StreamingRedactor.StreamRefinesWhole | tool-runtime-core/src/credential_materialization.rs:707-734 | what is settled followed by the redaction of what is held back is the redaction of the whole stream |
| StreamingRedactor.CutsDoNotMatter | tool-runtime-core/src/credential_materialization.rs:707-769 | the joined outputs and the final tail of any list of chunks depend only on the joined chunks |
| StreamingRedactor.ChunkedStreamRefinesWhole | tool-runtime-core/src/credential_materialization.rs:707-734 | for every way of cutting a stream, outputs followed by the redacted tail are the length-preserving redaction of the stream |
| StreamingRedactor.EmittedIsFree | tool-runtime-core/src/credential_materialization.rs:743-769 | nothing a stream has emitted contains a pattern |
| StreamingRedactor.HeldBack | tool-runtime-core/src/credential_materialization.rs:707-729 | what is held back is a proper prefix of some pattern and so shorter than the longest |
| StreamingRedactor.EvaluateStreamingPattern | tool-runtime-core/src/credential_materialization.rs:871-899 | evaluating one more pattern keeps the longest match and the need for more bytes exact for the patterns seen, charges exactly the shorter of pattern and pending bytes, and fails exactly beyond the budget |
| StreamingRedactor.EvaluateStreamingKey | tool-runtime-core/src/credential_materialization.rs:841-869 | evaluating one key evaluates exactly the patterns of that key, charging at most their bytes, and fails only beyond the budget |
| StreamingRedactor.PairKeyDecides | tool-runtime-core/src/credential_materialization.rs:792-811 | with two bytes pending no pattern outside the two keys can match or be completed |
| StreamingRedactor.StreamingRedactor.NextDecision | tool-runtime-core/src/credential_materialization.rs:776-831 | waits exactly while some pattern may still be completed; otherwise redacts the longest match or emits one byte; one decision charges at most all pattern bytes once and fails only beyond the budget |
| StreamingRedactor.StreamingRedactor.DrainStable | tool-runtime-core/src/credential_materialization.rs:743-769 | emits exactly the settled pieces of the buffer and stops where they end; the output limit is never reached; it charges once for each settled byte and once for the wait |
| StreamingRedactor.StreamingRedactor.Push | tool-runtime-core/src/credential_materialization.rs:707-729 | emitted bytes and pending tail are functions of the bytes consumed and the tail is a proper prefix of a pattern; a chunk within the input limit fails only on the work budget, and not while bytes consumed and chunks, times the pattern bytes, are within it |
| StreamingRedactor.StreamingRedactor.IntoPending | tool-runtime-core/src/credential_materialization.rs:731-741 | emitted bytes followed by the redacted tail are the redaction of everything consumed |
| StreamingRedactor.PushWork | tool-runtime-core/src/credential_materialization.rs:743-769 | work adds up over chunks: the bytes settled and held back account for all bytes consumed, and each chunk waits at most once |
| StreamingRedactor.PushAll | tool-runtime-core/src/credential_materialization.rs:707-741 | pushing all chunks and taking the tail gives the result of any other cutting, free of patterns, and always succeeds while chunks fit the input limit and bytes plus chunks, times the pattern bytes, fit the budget |
| Persistence.CheckDrafts | tool-runtime-core/src/credential_persistence.rs:228-244 | accepts exactly batches within the record count, each record within the input limit and all together within the total |
| Persistence.SealCredentialPersistence | tool-runtime-core/src/credential_persistence.rs:221-275 | every draft is stored under its own surface at its own length, no pattern occurs across the joined records, and every failure has its cause |
| LeaseModel.RefusedUnlessPermitted | tool-runtime-core/src/credential_lifecycle_coordinator.rs:352-612 | the ordered checks of each operation let through exactly the declared permission of that operation |
| LeaseCoordinator.Coordinator.EnsureLive | tool-runtime-core/src/credential_lifecycle_coordinator.rs:696-722 | passes exactly while time has not run backwards, the deadline is ahead and the idle timeout has not elapsed |
| LeaseCoordinator.Coordinator.ExactRecord | tool-runtime-core/src/credential_lifecycle_coordinator.rs:658-684 | a token resolves only while its target is leased under the very same identifier |
| LeaseCoordinator.Coordinator.BeginLogin | tool-runtime-core/src/credential_lifecycle_coordinator.rs:352-413 | admits exactly a permitted login under a new identifier on a free target; each refusal is the first failing check and changes nothing |
| LeaseCoordinator.Coordinator.SnapshotOf | tool-runtime-core/src/credential_lifecycle_coordinator.rs:415-423 | reports exactly the record the token resolves to |
| LeaseCoordinator.Coordinator.PublishPending | tool-runtime-core/src/credential_lifecycle_coordinator.rs:427-450 | compare-and-swap to pending on a live running or pending lease; an overflowing snapshot is reported although the change was made |
| LeaseCoordinator.Coordinator.Resume | tool-runtime-core/src/credential_lifecycle_coordinator.rs:453-470 | compare-and-swap from pending to running |
| LeaseCoordinator.Coordinator.Heartbeat | tool-runtime-core/src/credential_lifecycle_coordinator.rs:472-490 | only the activity time of a live, uncancelled lease changes |
| LeaseCoordinator.Coordinator.RequestCancel | tool-runtime-core/src/credential_lifecycle_coordinator.rs:494-508 | a live lease becomes cancelling once; repeating it changes nothing |
| LeaseCoordinator.Coordinator.Complete | tool-runtime-core/src/credential_lifecycle_coordinator.rs:512-540 | releases the target; success needs a live, uncancelled lease; a lease in recovery never completes |
| LeaseCoordinator.Coordinator.CollectDue | tool-runtime-core/src/credential_lifecycle_coordinator.rs:550-571 | all due targets, or an error before any is marked, each error with its cause |
| LeaseCoordinator.Coordinator.StaleRecoveryTickets | tool-runtime-core/src/credential_lifecycle_coordinator.rs:546-588 | marks exactly the due leases and issues one ticket for each, all or nothing |
| LeaseCoordinator.Coordinator.FinishStaleRecovery | tool-runtime-core/src/credential_lifecycle_coordinator.rs:590-612 | a ticket releases exactly the marked lease it was issued for |
| LeaseRuns.RunKeepsWellFormed | tool-runtime-core/src/credential_lifecycle_coordinator.rs:352-612 | over every run identifiers stay distinct and behind the counter, revisions in range, activity before the deadline, and capacity respected |
| LeaseRuns.ReachableIsWellFormed | tool-runtime-core/src/credential_lifecycle_coordinator.rs:336-346 | every state reached from a new coordinator is well formed in that sense |
| LeaseRuns.EndedTokenFailsForever | tool-runtime-core/src/credential_lifecycle_coordinator.rs:658-684 | a token whose lease ended is refused by every operation in every continuation, even when its target is leased again |
| LeaseRuns.ReleaseEndsLease | tool-runtime-core/src/credential_lifecycle_coordinator.rs:512-612 | completing a lease or consuming its ticket ends its identifier |
| LeaseRuns.BeginUsesFreshId | tool-runtime-core/src/credential_lifecycle_coordinator.rs:389-398 | a new lease has an identifier that no earlier one of the coordinator had |
| LeaseRuns.RevisionNeverFalls | tool-runtime-core/src/credential_lifecycle_coordinator.rs:753-755 | along every run a lease keeps its deadline and its revision never falls, and it has risen if the state differs |
| LeaseRuns.OneWinnerPerRevision | tool-runtime-core/src/credential_lifecycle_coordinator.rs:427-470 | at most one publish or resume is granted per expected revision of a lease, over any run between them |
| LeaseRuns.CancelIsFinal | tool-runtime-core/src/credential_lifecycle_coordinator.rs:494-540 | over every run, a cancelling lease is refused publishing, resuming and heartbeats and never completes as succeeded |
| LeaseRuns.DeadlineLaw | tool-runtime-core/src/credential_lifecycle_coordinator.rs:365-411 | in every reachable state begin <= last activity < deadline, and the deadline is begin plus timeout |
| LeaseRuns.IdleTimeoutBounds | tool-runtime-core/src/credential_lifecycle_coordinator.rs:110-116 | because an accepted idle timeout is never zero, every reachable lease is live at its last activity; because it is within the ceiling, none is live five minutes later |
| LeaseRuns.SuccessWasTimely | tool-runtime-core/src/credential_lifecycle_coordinator.rs:512-540 | a success means every two consecutive activities were less than the idle timeout apart and the login shorter than its timeout |
| LeaseRuns.TicketsAlwaysMatch | tool-runtime-core/src/credential_lifecycle_coordinator.rs:546-612 | with time that never runs backwards, outstanding tickets and leases in recovery correspond one to one in every reachable state |
| LeaseRuns.RecoveryIsHeld | tool-runtime-core/src/credential_lifecycle_coordinator.rs:542-612 | with time that never runs backwards, a lease in recovery stays unchanged and every operation on its target is refused until its single ticket is consumed |
| LeaseRuns.RecoveryChangesExactlyWhen | tool-runtime-core/src/credential_lifecycle_coordinator.rs:494-508 | without that hypothesis a lease in recovery changes exactly when its ticket is consumed or it is cancelled at a time at which it was still live |
| LeaseRuns.BackwardClockEscapesRecovery | tool-runtime-core/src/credential_lifecycle_coordinator.rs:494-508 | a concrete run in which an earlier time takes a lease out of recovery |
| LeaseRuns.OverflowReportedExactlyWhen | tool-runtime-core/src/credential_lifecycle_coordinator.rs:427-508 | an accepted change is reported as a failure exactly when the last activity after it plus the idle timeout exceeds the largest instant, whatever the change was |
| LeaseRuns.OverflowAfterChange | tool-runtime-core/src/credential_lifecycle_coordinator.rs:472-490 | a concrete run in which a heartbeat takes effect and is reported as an overflow |
| LeaseEffects.GrantedEffect | tool-runtime-core/src/credential_lifecycle_coordinator.rs:352-612 | the state after each granted operation, field by field: a heartbeat sets only the activity time, publish and resume raise the revision by one, a repeated cancel changes nothing, and no other lease is touched |
| LeaseEffects.MarkingEffect | tool-runtime-core/src/credential_lifecycle_coordinator.rs:546-588 | marking changes exactly the unmarked leases that can no longer act and issues exactly their tickets; the deadline is the reason whenever it has passed, otherwise the idle timeout |
| LeaseEffects.MarkingGrantedExactlyWhen | tool-runtime-core/src/credential_lifecycle_coordinator.rs:550-571 | marking succeeds exactly if time is behind no unmarked lease and every due revision can rise |
| LeaseEffects.LiveLeaseAllows | tool-runtime-core/src/credential_lifecycle_coordinator.rs:427-540 | what the holder of a live lease is granted, state by state |
| LeaseEffects.StaleLeaseAllows | tool-runtime-core/src/credential_lifecycle_coordinator.rs:696-722 | a lease that can no longer act is granted nothing but an unsuccessful end, and in recovery not even that |
| LeaseEffects.ForeignTokenAllowsNothing | tool-runtime-core/src/credential_lifecycle_coordinator.rs:658-684 | a token or ticket of another lease is granted nothing |
| LeaseEffects.TicketGoodExactlyWhen | tool-runtime-core/src/credential_lifecycle_coordinator.rs:590-612 | a ticket is good exactly for the marked lease and revision it names |
| LeaseEffects.LoginAdmittedExactlyWhen | tool-runtime-core/src/credential_lifecycle_coordinator.rs:352-398 | a login is admitted exactly for a free target, with room, with an allowed timeout that fits the clock, and after the cached status is gone |
| LeaseEffects.RefusalNamesCause | tool-runtime-core/src/credential_lifecycle_coordinator.rs:427-612 | every error of an operation on a lease names a condition that holds |
| LeaseEffects.LoginRefusalNamesCause | tool-runtime-core/src/credential_lifecycle_coordinator.rs:352-398 | every error of a refused login names a condition that holds |
| LeaseEffects.RevisionCountsChanges | tool-runtime-core/src/credential_lifecycle_coordinator.rs:427-588 | over every run a revision rises by exactly one at each granted publish, resume, first cancel and marking, and at nothing else |
| LeaseEffects.HeartbeatsKeepRevision | tool-runtime-core/src/credential_lifecycle_coordinator.rs:472-490 | a holder who only heartbeats, whatever happens to other targets, can still publish at the revision it knows |
| LeaseEffects.SnapshotTellsLifetime | tool-runtime-core/src/credential_lifecycle_coordinator.rs:724-751 | a snapshot of any reachable lease gives whole milliseconds to both of its ends, and the smaller one tells how long it stays live |
| LeaseProcess.EpochRegistry.NewCoordinator | tool-runtime-core/src/credential_lifecycle_coordinator.rs:311-346 | admits one coordinator per unregistered epoch under a new instance number; every refusal leaves the registry as it was; its effect on any process is that of the process step |
| LeaseProcess.EpochRegistry.DropCoordinator | tool-runtime-core/src/credential_lifecycle_coordinator.rs:622-642 | frees the epoch only if no lease is active, which is the effect of the process step |
| LeaseProcess.OneOwnerPerEpoch | tool-runtime-core/src/credential_lifecycle_coordinator.rs:284-286 | in every run of a process no two live coordinators serve the same epoch |
| LeaseProcess.IdsAreNeverReused | tool-runtime-core/src/credential_lifecycle_coordinator.rs:328-340 | in every run of a process no lease identifier is handed out twice, across all its coordinators, and its parts stay below the counters' maximum |
| LeaseProcess.DropReservesExactlyWhenActive | tool-runtime-core/src/credential_lifecycle_coordinator.rs:622-633 | dropping a coordinator reserves its epoch exactly when a lease was active, and otherwise frees it for a new one |
| LeaseProcess.ReservedForever | tool-runtime-core/src/credential_lifecycle_coordinator.rs:317-323 | a reserved epoch is never served again, whatever the process does |
| InertWords.SplitInertWords | tool-runtime-core/src/action_overrides.rs:1378-1434 | the nested scanning loops agree with the character automaton, and fail exactly when a quote stays open |
| InertWords.SplitConservesBytes | tool-runtime-core/src/action_overrides.rs:1378-1434 | the words of an accepted source are together no longer than the source, in UTF-8 bytes |
| InertWords.QuotedWordsComeBack | tool-runtime-core/src/action_overrides.rs:1403-1420 | splitting the double-quoted, backslash-escaped forms of any words joined by spaces gives the words back, empty ones included |
| QuotingSyntax.WordsComeBack | tool-runtime-core/src/action_overrides.rs:1378-1434 | any words of bare, single-quoted and double-quoted pieces, with any blanks between and around them, come back as what the pieces stand for |
| QuotingSyntax.OpenQuoteFails | tool-runtime-core/src/action_overrides.rs:1390-1420 | a quote that is never closed makes the source fail, whatever stands before it |
| QuotingSyntax.SplitIsTheSyntax | tool-runtime-core/src/action_overrides.rs:1378-1434 | every text whatever is words of this syntax, possibly with an open quote at its end; splitting fails exactly in that case and otherwise returns what the words stand for |
| Json.BoundedJsonShape | tool-runtime-core/src/action_overrides.rs:1268-1291 | the explicit-stack check terminates and accepts exactly the values within the recursive node count and depth |
| Json.ValidateJsonNodes | tool-runtime-core/src/credential_lifecycle_observation.rs:492-507 | the explicit-stack count accepts exactly the values within the recursive node count |
| Json.DepthExactlyWhen | tool-runtime-core/src/action_overrides.rs:1268-1291 | a value is within a depth exactly if every path into it is shorter |
| Json.NodesCountPaths | tool-runtime-core/src/credential_lifecycle_observation.rs:492-507 | the node count is the number of different paths into a value |
| JsonNesting.ValidateJsonNesting | tool-runtime-core/src/credential_lifecycle_observation.rs:462-490 | the loop agrees with the byte-at-a-time scanner, and on every well-formed text it fails exactly when arrays and objects nest deeper than the limit |
| JsonNesting.FeedString | tool-runtime-core/src/credential_lifecycle_observation.rs:466-475 | a string literal changes no depth, whatever brackets, quotes and escapes it holds |
| JsonNesting.ScanIsNesting | tool-runtime-core/src/credential_lifecycle_observation.rs:462-490 | on every well-formed text the scan fails exactly when arrays and objects nest deeper than the limit |
| JsonNesting.NestingExactlyWhen | tool-runtime-core/src/credential_lifecycle_observation.rs:462-490 | nesting is within a limit exactly if every array and object lies inside fewer others than the limit |
| ActionParameters.DerivedBoundsFit | tool-runtime-core/src/action_overrides.rs:2132-2146 | explicit string-array bounds are kept, and a pair with an omitted bound fits the combined argument budget |
| ActionParameters.DerivedBoundsAreLargest | tool-runtime-core/src/action_overrides.rs:2132-2146 | a derived bound is the largest that fits its ceiling and the combined budget |
| ActionParameters.OldDeclarationsKeepTheirBounds | tool-runtime-core/src/action_overrides.rs:2124-2131 | declarations that were accepted under the two independent ceilings resolve to the same bounds as before |
| ActionParameters.DefaultsPass | tool-runtime-core/src/action_overrides.rs:1812-2105 | every default that compiles is a valid run-time value of the compiled parameter |
| ActionParameters.FilledInLengthMatters | tool-runtime-core/src/action_overrides.rs:776-807 | what filling in an omitted length is for: an accepted default would pass without it exactly when it is no string without a declared length or fits an ordinary argument |
| ActionParameters.ValidateRuntimeParameter | tool-runtime-core/src/action_overrides.rs:1157-1266 | the run-time check, with its item loop and explicit-stack shape check, accepts exactly the values that are valid in terms of recursive node count and depth |
| RuntimeAgreement.TextPassesExactlyWhen | tool-runtime-core/src/action_overrides.rs:1161-1185 | text passes exactly within its declared lengths, without control characters, and from its enumeration or as the default |
| RuntimeAgreement.NumberPassesExactlyWhen | tool-runtime-core/src/action_overrides.rs:1186-1210 | numbers pass exactly within their declared bounds, integers also from their enumeration |
| RuntimeAgreement.BooleanPassesExactlyWhen | tool-runtime-core/src/action_overrides.rs:1211 | a boolean passes exactly if it is one |
| RuntimeAgreement.ItemsPassExactlyWhen | tool-runtime-core/src/action_overrides.rs:1212-1231 | string arrays pass exactly within the resolved count, each item printable and within its bytes |
| RuntimeAgreement.DocumentPassesExactlyWhen | tool-runtime-core/src/action_overrides.rs:1232-1260 | documents pass exactly within nodes, depth, encoded bytes and element count |
| RuntimeAgreement.ScalarCompilesExactlyWhen | tool-runtime-core/src/action_overrides.rs:1812-1960 | which scalar declarations compile, enumeration and default included |
| RuntimeAgreement.OtherCompilesExactlyWhen | tool-runtime-core/src/action_overrides.rs:1960-2105 | which other declarations compile |
| RuntimeAgreement.IntegersAgree | tool-runtime-core/src/action_overrides.rs:1186-1196 | an integer passes at run time exactly if the same declaration would compile with it as the default |
| RuntimeAgreement.NumbersAgree | tool-runtime-core/src/action_overrides.rs:1197-1210 | the same for numbers |
| RuntimeAgreement.TextsAgree | tool-runtime-core/src/action_overrides.rs:1161-1178 | the same for texts, but for the optional empty text outside its enumeration |
| RuntimeAgreement.EmptyTextIsTheException | tool-runtime-core/src/action_overrides.rs:1161-1178 | the excepted empty text passes at run time exactly where it really is the default |
| RuntimeAgreement.EnumerationPasses | tool-runtime-core/src/action_overrides.rs:1812-1905 | every value of an accepted enumeration passes at run time |
| RuntimeAgreement.DeclarationIsSatisfiable | tool-runtime-core/src/action_overrides.rs:1812-2105 | every scalar or string-array declaration that compiles is met by some value |
| TypedActions.ValidateMappings | tool-runtime-core/src/action_overrides.rs:2155-2208 | accepts exactly the mappings that map every parameter once, compatibly and within the base item and byte limits |
| LoweredTokens.AcceptedExactlyWhen | tool-runtime-core/src/action_overrides.rs:2155-2208 | mappings are accepted exactly if every parameter has one mapping of its own, each mapping has a cost, and the costs fit |
| LoweredTokens.FlagAcceptedExactlyWhen | tool-runtime-core/src/action_overrides.rs:2273-2282 | the flags a package may use |
| LoweredTokens.AcceptedTokensAreSafe | tool-runtime-core/src/action_overrides.rs:2155-2208 | in an accepted action flags look like flags and literal tokens are nonempty and printable |
| TypedActions.LowerMapping | tool-runtime-core/src/action_overrides.rs:1299-1374 | appends exactly the tokens of the mapping, in order, or refuses: as too large exactly when the words split but are too many or too long, otherwise as an invalid parameter |
| LoweredTokens.PrintedIntegerReadsBack | tool-runtime-core/src/action_overrides.rs:1436-1443 | a printed integer reads back, most significant digit first and with its sign, as the integer, without needless zeros |
| LoweredTokens.IntegersPrintApart | tool-runtime-core/src/action_overrides.rs:1436-1443 | different integers are printed differently |
| LoweredTokens.ScalarTokens | tool-runtime-core/src/action_overrides.rs:1305-1318 | a scalar is one token that shows the value; behind a flag it is two, the flag first, or none if it is empty and to be left out |
| LoweredTokens.BooleanFlagTokens | tool-runtime-core/src/action_overrides.rs:1319-1323 | a boolean flag stands in argv exactly when the value is true |
| LoweredTokens.ArrayTokens | tool-runtime-core/src/action_overrides.rs:1324-1344 | arrays of strings are lowered item by item in order, each behind its own flag if there is one, and exactly they are |
| LoweredTokens.OtherTokens | tool-runtime-core/src/action_overrides.rs:1345-1371 | documents follow their flag as encoded, literals stand as they are, split words within their limits, controls never reach argv |
| LoweredTokens.RefusalNamesCause | tool-runtime-core/src/action_overrides.rs:1352-1368 | a value is refused as too large exactly if it splits into words that are too many or too long |
| LoweredTokens.InvocationRefusalNamesCause | tool-runtime-core/src/action_overrides.rs:926-948 | an invalid value is refused before it is lowered, an unknown parameter as an invalid input |
| LoweredTokens.AcceptedValuesLower | tool-runtime-core/src/action_overrides.rs:2210-2271 | an accepted mapping fits its parameter: every value that passes validation is lowered, but for splitting |
| LoweredTokens.GivenValueIsUsed | tool-runtime-core/src/action_overrides.rs:935-947 | a given value is used and nothing else; an omitted one without default contributes nothing |
| LoweredTokens.OmittedMeansDefault | tool-runtime-core/src/action_overrides.rs:935-941 | writing a default out gives the same arguments as leaving it out |
| TypedActions.IntegerPrintFits | tool-runtime-core/src/action_overrides.rs:1439 | a printed integer takes at most twenty bytes, within the projected thirty-two |
| TypedActions.LoweringWithinProjection | tool-runtime-core/src/action_overrides.rs:2210-2271 | for every mapping and every value that passes run-time validation, the lowered tokens stay within the projected items and bytes |
| LoweredTokens.TextUsesProjection | tool-runtime-core/src/action_overrides.rs:2210-2271 | a free text uses its whole projection, so the projection is not larger than needed |
| LoweredTokens.BooleanUsesProjection | tool-runtime-core/src/action_overrides.rs:2210-2271 | a boolean uses its whole projection |
| LoweredTokens.ArrayUsesProjection | tool-runtime-core/src/action_overrides.rs:2210-2271 | a string array uses its whole projection |
| LoweredTokens.DocumentUsesProjection | tool-runtime-core/src/action_overrides.rs:2210-2271 | a document encoded to its limit uses its whole projection |
| LoweredTokens.OtherProjections | tool-runtime-core/src/action_overrides.rs:2210-2271 | controls cost nothing, and splitting no more items or bytes than declared or than its source can have |
| TypedActions.InvocationWithinProjection | tool-runtime-core/src/action_overrides.rs:926-948 | an accepted action never adds more to argv than the sum projected for its mappings |
| TypedActions.LowerMappings | tool-runtime-core/src/action_overrides.rs:926-948 | behind the fixed arguments, argv gains exactly the mappings' contributions, at most the base limits; controls hold validated values of run-time control parameters only; a refusal carries the error of the first mapping that refuses |
| ArgumentRules.ValidateArgumentRules | tool-runtime-core/src/action_overrides.rs:1011-1099 | accepts exactly the rules with valid, distinct, non-overlapping prefixes within the totals |
| ArgumentRules.OneConstraintApplies | tool-runtime-core/src/action_overrides.rs:1055-1070 | under accepted rules at most one constrained prefix applies to any argv |
| ArgumentRules.EnforceArgumentRules | tool-runtime-core/src/action_overrides.rs:1101-1122 | lets through exactly the argv that starts with no denied prefix and continues every applicable constrained prefix with an allowed token |
| ArgumentRules.AppliesExactlyWhen | tool-runtime-core/src/action_overrides.rs:1101-1122 | a prefix applies exactly to its continuations, and is obeyed exactly by those with an allowed next token |
| ArgumentRules.RulesAcceptedExactlyWhen | tool-runtime-core/src/action_overrides.rs:1011-1099 | acceptance over the tokens the rules write down: their number and bytes together, each token safe, denied prefixes different, constrained ones apart |
| Text.ByteLenIsUtf8 | tool-runtime-core/src/action_overrides.rs:1459-1480 | byte lengths are those of the UTF-8 encoding |
| Text.CharacterReadsBack | tool-runtime-core/src/action_overrides.rs:1459-1480 | an encoded character reads back, whatever follows it |
| StatusEvaluation.EvaluationBudget.Consume | tool-runtime-core/src/credential_lifecycle_observation.rs:398-404 | takes the amount or, if it is not there, fails without taking anything |
| StatusEvaluation.EvaluatePredicate | tool-runtime-core/src/credential_lifecycle_observation.rs:407-444 | the predicate's truth for exactly its cost, or failure when the budget cannot pay |
| StatusEvaluation.EvaluateAll | tool-runtime-core/src/credential_lifecycle_observation.rs:263-268 | predicates are charged up to the first failing one |
| StatusEvaluation.EvaluateRules | tool-runtime-core/src/credential_lifecycle_observation.rs:255-278 | the loop under a shared budget gives the verdict: the one state all matching rules agree on, unmapped, ambiguous, or limit exceeded |
| StatusEvaluation.VerdictIgnoresRuleOrder | tool-runtime-core/src/credential_lifecycle_observation.rs:255-284 | the verdict, budget included, is the same for every permutation of the rules |
| StatusEvaluation.VerdictAgreesWithEveryMatch | tool-runtime-core/src/credential_lifecycle_observation.rs:279-284 | a verdict that is a state is the state of every matching rule |
| StatusEvaluation.ParseBoundedJson | tool-runtime-core/src/credential_lifecycle_observation.rs:455-460 | too deep, malformed, too complex, or the parsed value, checked in that order |
| StatusEvaluation.ReadyExactlyWhen | tool-runtime-core/src/credential_lifecycle_observation.rs:195-203 | readiness escapes exactly when the state is ready and, where the contract declares a profile identity, the observed one is the expected one |
| StatusEvaluation.EvaluateLifecycleStatus | tool-runtime-core/src/credential_lifecycle_observation.rs:236-287 | the result, every failure included, is the evaluation of the observed command; an execution-ready one means every matching rule says ready and a declared identity matched |
| StatusEvaluation.ResultIgnoresRuleOrder | tool-runtime-core/src/credential_lifecycle_observation.rs:236-287 | two plans that differ only in the order of their rules get the same result, every failure included |
| StatusMeaning.RuleMatchesExactlyWhen | tool-runtime-core/src/credential_lifecycle_observation.rs:255-278 | a rule matches exactly if it lists the exit code and the payload meets each predicate: the pointer resolves, does not, resolves to this very scalar, or to an array holding every wanted text |
| StatusMeaning.ExistsOrAbsent | tool-runtime-core/src/credential_lifecycle_observation.rs:407-444 | existence and absence of a pointer exclude each other, and a pointer equals at most one scalar, and then exists |
| StatusMeaning.VerdictMeans | tool-runtime-core/src/credential_lifecycle_observation.rs:255-284 | a verdict is the state of some rule that is met, every rule that is met is of that state; unmapped means that none is met, ambiguous that two of different states are |
| StatusMeaning.CostMeans | tool-runtime-core/src/credential_lifecycle_observation.rs:407-444 | a predicate costs one unit, an array test also the array and the wanted texts |
| StatusMeaning.PlainPredicatesCost | tool-runtime-core/src/credential_lifecycle_observation.rs:263-268 | predicates without array tests cost one each up to the first that fails |
| StatusMeaning.LimitExceededExactlyWhen | tool-runtime-core/src/credential_lifecycle_observation.rs:387-404 | a contract is stopped by the budget exactly if its rules together cost more |
| StatusMeaning.SameIdentityMeans | tool-runtime-core/src/credential_lifecycle_observation.rs:325-333 | an exact selector accepts equal texts only, the other one exactly texts equal up to the case of ASCII letters |
| StatusMeaning.IdentityOutcome | tool-runtime-core/src/credential_lifecycle_observation.rs:289-356 | what the identity check reports, outcome by outcome, each failure with its exact cause |
| StatusMeaning.ReportedStateIsMet | tool-runtime-core/src/credential_lifecycle_observation.rs:236-287 | a reported state is the state of a rule that the observed command met, and no rule of another state is met |
| StatusMeaning.FailureNamesCause | tool-runtime-core/src/credential_lifecycle_observation.rs:236-287 | each failure of the evaluation has its cause |
| StatusMeaning.DeepOutputIsNotParsed | tool-runtime-core/src/credential_lifecycle_observation.rs:455-460 | output that nests too deep gets a result that does not depend on parsing |
| StatusEvaluation.ReadyWithoutIdentity | tool-runtime-core/src/credential_lifecycle_observation.rs:303-317 | a concrete plan that expects an identity and is ready without any, because its contract declares none |
| ExactCover.CleanJoinIsCover | tool-runtime-core/src/classification.rs:508-548 | a join without errors or missing keys is exactly a cover: each expected key once, nothing else, every entry valid, and it collects the entries |
| ExactCover.CoverIgnoresOrder | tool-runtime-core/src/classification.rs:508-548 | whether entries cover the expected keys, and what is collected, do not depend on their order |
| Classification.JoinEntries | tool-runtime-core/src/classification.rs:557-580 | offering entries one by one reports unknown and repeated keys and collects the others |
| Classification.JoinGroup | tool-runtime-core/src/classification.rs:494-530 | offering the skills of a group one by one has a problem exactly when the join does, and otherwise collects the same |
| Classification.JoinDispositions | tool-runtime-core/src/classification.rs:631-661 | the same for dispositions, although here a repeated one replaces the earlier one and an unacceptable one is not kept |
| Classification.Compile | tool-runtime-core/src/classification.rs:469-667 | accepts exactly the manifests whose sound decisions cover skills, adapter files and findings, agree on runtime ownership and carry sound notes, and yields their artifact |
| Classification.ExactlyTheSources | tool-runtime-core/src/classification.rs:508-650 | the artifact classifies every source skill, adapter file and finding and nothing else |
| Classification.OrderDoesNotMatter | tool-runtime-core/src/classification.rs:652-656 | rearranging groups, dispositions, exceptions or unknowns changes neither acceptance nor the artifact |
| Classification.EveryDecisionIsSound | tool-runtime-core/src/classification.rs:494-530 | every decision of the artifact is sound for the source skill it classifies |
| Classification.LastSourceIsLast | tool-runtime-core/src/classification.rs:489-493 | a decision is validated against the last source listed under its id |
| Classification.FirstSourceIsFirst | tool-runtime-core/src/classification.rs:583-588 | ownership is compared with the first source listed under an id |
| Classification.OwnershipFitsRole | tool-runtime-core/src/classification.rs:546-580 | in the artifact a file is owned as no wrapper exactly when its role wraps nothing, and otherwise has the ownership of its role |
| ClassificationMeaning.AcceptedExactlyWhen | tool-runtime-core/src/classification.rs:470-667 | acceptance read off the manifest: every skill and adapter file is named at exactly one place and soundly, every finding has one disposition it may have, owners fit, notes are sound |
| ClassificationMeaning.ArtifactReadsManifest | tool-runtime-core/src/classification.rs:494-656 | the artifact takes every decision from the place that names its subject, and lists the notes in ascending order |
| ClassificationMeaning.OwnerFitsExactlyWhen | tool-runtime-core/src/classification.rs:587-617 | which source a runtime owner fits, owner by owner |
| ClassificationMeaning.NotesOkExactlyWhen | tool-runtime-core/src/classification.rs:987-1024 | notes are sound exactly if no two share an identifier and each is safe and names known skills, each once |
| Decisions.ValidateSkillGroup | tool-runtime-core/src/classification.rs:720-863 | the checks of one decision find no problem exactly when its profile is sound and it is either without authentication in every field or fully authenticated under one session owner that serves all its strategies |
| Decisions.ValidateProfile | tool-runtime-core/src/classification.rs:865-943 | policy, source, selector and alias of a profile fit each other and the inventoried selectors |
| Decisions.ValidateAdapterGroup | tool-runtime-core/src/classification.rs:945-985 | a role that wraps nothing is owned as exactly that, a wrapper role has its own kind of ownership and is not owned as no wrapper |
| Decisions.SoundExactlyWhen | tool-runtime-core/src/classification.rs:720-863 | soundness of a decision, strategy by strategy and against the source's own requirements |
| Decisions.SessionTable | tool-runtime-core/src/classification.rs:790-863 | which session each strategy can have |
| Decisions.ProfileSoundExactlyWhen | tool-runtime-core/src/classification.rs:865-943 | soundness of a profile, policy by policy |
| Decisions.GroupSoundExactlyWhen | tool-runtime-core/src/classification.rs:945-985 | soundness of an adapter group, role by role |
| Decisions.IdentifierMeans | tool-runtime-core/src/classification.rs:1026-1035 | the characters of a safe identifier |
| Decisions.NoAuthenticationAnywhere | tool-runtime-core/src/classification.rs:738-789 | a sound decision is without authentication in one field exactly when it is in every field |
| Decisions.StrategiesShareAnOwner | tool-runtime-core/src/classification.rs:814-863 | two strategies that no single session owner serves never stand in one sound decision |

## Left out

- Redactor.New: Rust machine-integer overflow checks on byte totals are not modelled, because the limits
  are far below the range of `usize`; errors for an index entry without its pattern are likewise left
  out, because a valid index has none.
- StreamingRedactor.StreamingRedactor.NextDecision: the `final_input` argument is not modelled, because
  every call passes `false`.
- StreamingRedactor.StreamingRedactor.Push: once the work budget has run out nothing is promised about the
  output as a whole, because the call that failed dropped what it had already decided; only each later
  output by itself is still described.
- Duplicating a redactor with an additional secret, which calls the constructor again.
- Zeroing of memory, debug and serialized forms, error texts, and types that cannot be cloned. A recovery
  ticket is consumed by dropping it from the set of outstanding tickets.
- The child environment, the injection plan, scoped files and profile directories around the redactor.
- Lock poisoning, thread scheduling and real clocks: each method is one atomic step, and time is a number
  of nanoseconds up to a largest representable instant. The interaction mode of a lease is only copied.
- The status cache that `begin_login` invalidates: its answer is a parameter.
- A ticket presented to a coordinator that did not issue it, which is refused and lost.
- Action identifiers, descriptions, executables, stdin delivery, lifecycle path separation, policy
  composition and the presented JSON schema of typed actions.
- The final check of the whole argv against the limits, in which fixed and suffix arguments count too:
  the projection covers mapping output only, and nothing more is claimed.
- JSON text output and float formatting: the encoder is a parameter, a float carries its printed text of
  at most 64 bytes, and float comparisons are made on reals without rounding.
- JSON parsing, JSON pointers and the validity of an observed identity in status evaluation: parameters.
- Classification.Compile: the error texts and their number are not modelled, only whether there are any,
  because rejection does not depend on them. The Markdown and JSON renderings, the summary counts and the
  shape check of the YAML text are left out too, and a note's kind and resolution are one copied field.

# Verified models of the collide-o-scope cores

Dafny models of the self-contained algorithmic cores of the live video instrument, with proofs of what each is for. Everything that the source changes in place is a class, an array or a loop here; each such method is tied to a function over snapshots or logs, and the theorems are about those functions, over every input and every run. `dafny verify dfyconfig.toml` checks the project.

| area | modules |
|---|---|
| Scene Autopilot scheduler | `Autopilot` (the scheduler object), `AutopilotRuns` (phase invariant, no skip), `AutopilotTiming` (beat accounting), `AutopilotFrames` (single calls and first frames), `AutopilotTokens` (token discipline), `AutopilotHost` (agreement with the output) |
| Action correlation monitor | `NearestRank`, `DurationWindow`, `ActionCorrelation` (the fixed-capacity object), `CorrelationRuns` (exactly-once accounting, receipt delivery, sequence numbers) |
| Vendored-source patch verifier | `TextLines` (splitting and joining), `HunkHeader`, `UnifiedPatch` (the hunk loops and the files around them), `PatchReading` (what they do, character by character), `PatchLaws` (what they do to lines), `PatchTexts` (round trip and reversal of texts), `PatchExistence` (which texts a patch can reach), `PatchSources` (which texts share a result), `VendorTree` |
| SBOM reference normalizer | `JsonTree` (trees and structural difference), `SbomLayout`, `SbomNormalizer`, `SbomGraph`, `SbomLaws`, `SbomTexts` (paths, texts and totals) |
| Block DCT line law | `Orthonormal`, `Colour`, `BlockDct`, `BlockDctLaws`, `BlockDctNumbers` (the controls in numbers) |
| Filter Avalanche reference | `FilterAvalanche`, `AvalancheLaws`, `AvalancheNumbers` (the controls in numbers) |
| Budgeted JSON builder | `BoundedJson`, `BoundedJsonLaws`, `BoundedJsonTexts` (limits, errors and values spelled out) |
| Action-to-photon fixture | `ActionPhoton`, `PhotonReports` (outcomes in numbers) |
| Creative mutation staging | `CreativeMutation` |
| Alpha export fill and key | `AlphaExport` |

How to read the models:

- **State and runs.** A class such as `Autopilot.Scheduler` has the source's fields. Its methods promise `Snapshot() == AfterX(old(Snapshot()), ...)`, and runs are lists of events folded over those same functions, so a whole-run theorem speaks about any sequence of method calls.
- **The host.** `AutopilotHost.Execute` follows the command queue of the host in `src/main.rs`, lines 17022 to 17087: cuts and preparations of a foreign epoch are skipped, a failed preparation appends the fault's commands, and a failed cut empties the queue first. `HostFault` stands for the preparation faults it reports outside a batch, lines 17254 to 17258, 17342 to 17346 and 17372 to 17376. The refusal counter that `CreativeMutation` speaks of is kept in the same file, lines 20616 to 20627.
- **Functions and what pins them.** The functions that the contracts of methods name are themselves fixed by laws that do not name them: in runs (`AutopilotFrames`, `CorrelationRuns`), in characters (`HunkHeader`, `TextLines`, `PatchReading`, `SbomTexts`, `BoundedJsonTexts`) and in numbers (`BlockDctNumbers`, `AvalancheNumbers`, `PhotonReports`).
- **Integers.** Widths are explicit where they show: sequences and epochs wrap modulo 2^64, beats saturate, receipt ordinals saturate.
- **Reals.** The DCT and the avalanche are over `real`. The DCT basis (scale and cosine together) is a matrix parameter, and the theorems ask only that its columns are orthonormal; that its rows are, too, is proved.

What the code does where its conventions might suggest otherwise:

- *Late rejections.* `fault` forgets the latest commit, so a rejected cut reported after some other fault is not rolled back. `WithdrawalAgreesExactlyWhen` gives the exact condition, `LateRejectionIsLost` a run. Over whole runs, agreement is kept exactly as long as no withdrawal is late in that sense (`DeferredAgreementExactlyWhenInTime`). The repository's own host reports a failed cut while it is still draining the batch that cut, and failed preparations whenever it learns of them, and for it agreement holds always (`HostAlwaysAgrees`).
- *Pure insertions.* A hunk that counts no source lines inserts before the line its header names, and line 0, which other patch tools use for an insertion at the top, is refused (`PureInsertionGoesBeforeItsLine`).
- *Number of hunks.* The loop splices any number of hunks, and the function then refuses every patch that does not have exactly one.
- *Reversal.* The applier joins its lines into a text, and whoever reads that text splits it again. A reversed patch therefore restores the original if and only if no lines run into one another where the patch put them side by side (`ReversalRestoresExactlyWhenSeamsAreClean`): an added line without a line break needs the end of the text behind it, nothing may be added behind an unterminated last line, a line feed must not meet a lone carriage return, and an empty addition without a line break leaves nothing to take back. `ReversalCanBeRefused` is the smallest failing text; `OrdinaryPatchesReverse` covers the texts with line feeds only.
- *Reach.* A patch is a text too, so it holds at most one line without a break, its last. Which text can be patched into which is settled both ways by `EveryChangeHasAPatchExactlyWhen`; two different unterminated lines cannot (`NoPatchBetweenOpenLines`).
- *Sources.* An accepted patch can forget one thing about its source: whether a carriage return that ends the line in front of its hunk is followed by a line feed. Two texts with one result are the same if and only if they agree on that line (`SameSourceExactlyWhen`), so an accepted tree determines the patched upstream file exactly up to it (`AcceptedTreeDeterminesUpstream`). `TwoSourcesOneResult` and `TwoSourcesNeitherClean` are texts that do differ.
- *Refusal counts.* Staging reports a refusal exactly when changes overflow. What the refusals count is the deliveries to a full list that differ from its last item (`RefusalsAndLosses`), which is the number of changes lost if and only if refused items are delivered again exactly as often as the stream returns to the last item kept (`RefusalsEqualLossesExactlyWhen`).

## Model

| member | source | states |
|---|---|---|
| Autopilot.FirstMissing | src/performance.rs:951-961 | the first step, in plan order, whose Scene is not authored, or none exactly when all are |
| Autopilot.ValidateScenes | src/performance.rs:951-961 | the loop finds that first step |
| Autopilot.Scheduler.constructor | src/autopilot.rs:164-183 | a fresh scheduler is stopped, in its first epoch, with nothing expected |
| Autopilot.Scheduler.Play | src/autopilot.rs:239-274 | empty plans change nothing; a missing Scene faults after cancelling the old epoch; otherwise the old epoch is cancelled and step 0 is prepared, with the first release frame suppressed |
| Autopilot.Scheduler.Reset | src/autopilot.rs:278-283 | everything is forgotten, the epoch advances and the old one is cancelled |
| Autopilot.Scheduler.Pause | src/autopilot.rs:285-296 | only the three live phases pause, and each is remembered |
| Autopilot.Scheduler.Resume | src/autopilot.rs:298-304 | only a paused scheduler resumes, into the remembered phase |
| Autopilot.Scheduler.AdvanceFrame | src/autopilot.rs:309-382 | one accepted frame: readiness, suppression, beats, then at most one cut, stall or completion |
| Autopilot.Scheduler.Fault | src/autopilot.rs:386-396 | a rejection of the latest commit rolls the cursors back before the fault |
| Autopilot.Scheduler.AcceptReadiness | src/autopilot.rs:398-420 | only a report naming the expected token has any effect |
| Autopilot.Scheduler.CommitExpected | src/autopilot.rs:422-457 | cuts the expected token, sets the next due beat and prepares the lookahead |
| Autopilot.Scheduler.PrepareStep | src/autopilot.rs:459-471 | mints the next token of the epoch for a step of the plan |
| Autopilot.Scheduler.EnterFault | src/autopilot.rs:473-490 | the terminal hold: countdown, expectation and latest commit are forgotten, the active step is kept |
| Autopilot.Scheduler.AdvanceEpoch | src/autopilot.rs:492-499 | epochs wrap and skip zero |
| Autopilot.Scheduler.ClearSequenceState | src/autopilot.rs:501-514 | everything but phase and epoch returns to its default |
| AutopilotRuns.StepKeepsInv | src/autopilot.rs:285-382 | every call keeps the phase invariant: which phases have a due beat, an expected token, a remembered phase, and that the token carries the current epoch, the newest sequence and the plan's Scene |
| AutopilotRuns.ReachableStatesSatisfyInv | src/autopilot.rs:147-183 | every state of every run from construction satisfies it |
| AutopilotRuns.OnlyTheHostRaisesInvariantFault | src/autopilot.rs:354-357 | frames and readiness never raise the Invariant fault |
| AutopilotRuns.FrameCommitsExactlyWhen | src/autopilot.rs:309-382 | if and only if: when a frame cuts, and which token; the early returns of the commit path are never taken |
| AutopilotRuns.OneCutPerFrameAndNoCatchUp | src/autopilot.rs:422-457 | at most one cut per frame however many beats it crossed, and the new hold starts at its own beat |
| AutopilotRuns.StaleTokensAreIgnored | src/autopilot.rs:398-420 | a report of any token but the expected one is a frame without a report |
| AutopilotRuns.CutKeepsSchedule | src/autopilot.rs:422-471 | one cut moves the schedule by exactly one place |
| AutopilotRuns.QuietStepKeepsSchedule | src/autopilot.rs:285-420 | every call that does not cut leaves the schedule in place, or faults |
| AutopilotRuns.RunKeepsHistory | src/autopilot.rs:309-490 | the cuts of a run and the beats they fell on, against the plan |
| AutopilotRuns.NoSkip | src/autopilot.rs:239-490 | whole run: after any play the i-th cut has the play's epoch, sequence i modulo 2^64 and step i mod n; Once cuts at most n times; every cut waits out the hold before it; the run has faulted or stands at the next token |
| AutopilotRuns.RejectedPlayNeverCuts | src/autopilot.rs:239-274 | an inadmissible play names the first broken step and leaves nothing to cut |
| AutopilotRuns.FaultedHoldsUntilPlay | src/autopilot.rs:473-490 | no event short of play or reset cuts or moves a faulted sequence |
| AutopilotTiming.AcceptedBeatsCountAdmittedCrossings | src/autopilot.rs:335-346 | the beat ordinal is the saturating sum of the crossings on admitted frames |
| AutopilotTiming.PunctualStepSpendsItsBeats | src/autopilot.rs:345-382 | one punctual step spends exactly its crossings from the remaining beats |
| AutopilotTiming.PunctualPlanSpendsItsBeats | src/autopilot.rs:345-382 | whole run: a punctual Once plan is complete exactly when its remaining beats are spent, pauses and freezes costing nothing |
| AutopilotTiming.OncePlanCompletesAfterItsHolds | src/autopilot.rs:354-366 | from its first cut, a Once plan completes after exactly the sum of all its holds |
| AutopilotTiming.PlayCompletesAfterItsHolds | src/autopilot.rs:239-382 | whole play: whatever happened up to its first cut, a Once plan that is punctual from there on is complete exactly when the beats admitted since are the sum of all its holds |
| AutopilotTiming.PauseKeepsTheDwell | src/autopilot.rs:285-330 | pausing, any frames meanwhile and resuming emit nothing and restore everything but a readiness that arrived |
| AutopilotTiming.FreezeKeepsTheDwell | src/autopilot.rs:333-343 | frames without running media keep the remaining dwell |
| AutopilotFrames.FirstLiveFrameIsSpent | src/autopilot.rs:239-343 | from any state: the first frame after a play that finds the scheduler live neither cuts nor counts a crossing, whatever it reports and whatever paused before it |
| AutopilotFrames.CutNeedsAnEarlierLiveFrame | src/autopilot.rs:333-357 | whole play: every cut has a live frame before it |
| AutopilotFrames.BeatsOfAPlay | src/autopilot.rs:333-346 | whole play: the beat ordinal is the sum of the crossings of all live frames but the first, with running media and nothing rejected, up to 2^64 - 1 |
| AutopilotFrames.PlayCutsExactlyWhen | src/autopilot.rs:309-382 | whole play, if and only if: when a frame cuts and which token, told by what came before it |
| AutopilotFrames.HoldEndsExactlyWhen | src/autopilot.rs:345-382 | a running hold stalls exactly when it is over and its token is not ready, completes exactly when it is over and nothing is expected, and goes on or is cut otherwise |
| AutopilotFrames.WaitsUntilReady | src/autopilot.rs:348-381 | starting and stalled phases wait for their token |
| AutopilotFrames.EpochsEndWithTheirCancel | src/autopilot.rs:239-499 | plays, resets and faults, and nothing else, end an epoch: they first cancel what was owned under it and go on in the next, which is never zero |
| AutopilotFrames.PlayArmsItsFirstStep | src/autopilot.rs:256-274 | the cancel of the old epoch and the preparation of step 0 under the new one, whatever was going on |
| AutopilotFrames.RefusedPlaySaysWhy | src/autopilot.rs:239-262 | the error a refused play returns, beside the fault it leaves |
| AutopilotFrames.PastIsForgotten | src/autopilot.rs:239-283 | nothing but the epoch survives a play or a reset |
| AutopilotFrames.FaultsAreRecorded | src/autopilot.rs:384-490 | what a fault records and leaves in place, the roll-back of a rejected cut included |
| AutopilotFrames.PausesAreExact | src/autopilot.rs:285-304 | a pause is undone by a resume in the three live phases and is nothing anywhere else |
| AutopilotTokens.StepChangesExpected | src/autopilot.rs:398-471 | how one call can change the expected token and its readiness |
| AutopilotTokens.ExpectedOrigin | src/autopilot.rs:459-471 | every expected token was prepared earlier in the run, and is ready only by its own report |
| AutopilotTokens.CutNeedsItsOwnReport | src/autopilot.rs:398-457 | whole run: a cut was preceded by its own preparation and then by a report of that very token |
| AutopilotTokens.TokensNeverAlias | src/autopilot.rs:459-499 | no run shorter than the 64-bit counters prepares a token twice |
| AutopilotHost.CutBatchKeepsAgreement | src/autopilot.rs:384-396 | executing the batch of a cut, failed or not, leaves scheduler and output on the same step |
| AutopilotHost.QuietBatchKeepsOutput | src/autopilot.rs:473-490 | a batch without a cut never moves the output or the active step |
| AutopilotHost.HostAlwaysAgrees | src/autopilot.rs:384-490 | whole run: whatever cuts, stagings and asynchronous preparations fail, the active step is the visible one after every event |
| AutopilotHost.DeferredStepKeepsAgreement | src/autopilot.rs:386-396 | if and only if: one event of any kind, foreign rejections included, parts scheduler and output exactly when it is a late withdrawal |
| AutopilotHost.DeferredAgreementExactlyWhenInTime | src/autopilot.rs:384-490 | whole run, if and only if: scheduler and output agree after every event exactly when no withdrawal of the run is late |
| AutopilotHost.WithdrawalAgreesExactlyWhen | src/autopilot.rs:386-396 | in every state such a run reaches: a rejection is rolled back exactly when no other fault came first, or nothing would move |
| AutopilotHost.LateRejectionIsLost | src/autopilot.rs:473-490 | a run in which a rejection after another fault is not rolled back |
| AutopilotHost.RepeatedRejectionRollsBackOnce | src/autopilot.rs:386-396 | the same rejection reported twice rolls back once, and a foreign one not at all |
| NearestRank.Sorted | src/action_correlation.rs:250-253 | an ordered permutation of the samples |
| NearestRank.OrderedIsUnique | src/action_correlation.rs:250-253 | and the only one, so an unstable sort is determined |
| NearestRank.PercentileIsNearestRank | src/action_correlation.rs:481-489 | at least p% of the samples lie at or below the value, fewer than p% strictly below, and it is a sample |
| NearestRank.PercentilesAreMonotone | src/action_correlation.rs:481-489 | percentiles are ordered and lie between minimum and maximum |
| DurationWindow.RingInOrder | src/action_correlation.rs:453-463 | read from its oldest cell, a ring lists the newest entries of its log in order |
| DurationWindow.DurationRing.constructor | src/action_correlation.rs:233-241 | an empty window |
| DurationWindow.DurationRing.Record | src/action_correlation.rs:244-248 | recording appends the sample, in saturated microseconds, to the log the ring stands for |
| DurationWindow.DurationRing.Percentiles | src/action_correlation.rs:250-259 | the report is the one of the complete log |
| DurationWindow.RingHoldsRecentSamples | src/action_correlation.rs:243-253 | the live cells are, as a multiset, the last min(count, 512) samples |
| DurationWindow.WindowReportsOrderStatistics | src/action_correlation.rs:250-259 | after any records: the sample count, p50 <= p95 <= p99, each the nearest-rank statistic of the newest samples |
| ActionCorrelation.FirstFree | src/action_correlation.rs:315 | the first empty slot |
| ActionCorrelation.LiveCountsOccupied | src/action_correlation.rs:305-322 | the table is full exactly when the pending count reaches capacity, so the second capacity branch is dead |
| ActionCorrelation.LiveAfterFill | src/action_correlation.rs:326-334 | filling a free slot adds exactly that action |
| ActionCorrelation.ClosingPartitions | src/action_correlation.rs:366-423 | closing splits the pending actions, as a multiset, into those closed and those kept |
| ActionCorrelation.ClosingRespectsScope | src/action_correlation.rs:386-401 | exactly the covered actions are closed |
| ActionCorrelation.ClosedInTableOrder | src/action_correlation.rs:393-403 | they are closed, and get their receipts, in table order |
| ActionCorrelation.Sweep | src/action_correlation.rs:391-401 | the in-place table sweep moves the covered occupants out, in table order |
| ActionCorrelation.Monitor.constructor | src/action_correlation.rs:281-297 | an empty monitor |
| ActionCorrelation.Monitor.RecordApplyIdentity | src/action_correlation.rs:305-335 | tracks exactly while there is room; otherwise counts and answers the action at once |
| ActionCorrelation.Monitor.RecordTerminal | src/action_correlation.rs:337-352 | one receipt with that disposition, nothing else |
| ActionCorrelation.Monitor.TerminalizeAllPending | src/action_correlation.rs:366-381 | one receipt per pending action, in table order, and an empty table |
| ActionCorrelation.Monitor.RecordSubmission | src/action_correlation.rs:386-423 | presents the actions up to the submitted sequence, in table order, with latency samples and high-water marks |
| ActionCorrelation.Monitor.Present | src/action_correlation.rs:402-421 | the body of the submission loop |
| ActionCorrelation.Monitor.TakeCovered | src/action_correlation.rs:388-401 | the sweep with its pending count |
| ActionCorrelation.Monitor.PushReceipt | src/action_correlation.rs:465-474 | the ring write appends to the receipt log |
| ActionCorrelation.Monitor.ReceiptsAfter | src/action_correlation.rs:444-463 | the retained receipts beyond the cursor, oldest first |
| ActionCorrelation.Monitor.TakeSnapshot | src/action_correlation.rs:425-434 | reports the two windows, the high-water marks and the true number of pending actions |
| CorrelationRuns.CallConserves | src/action_correlation.rs:305-423 | one call: pending plus settled equals pending before plus offered |
| CorrelationRuns.EveryActionIsSettledOnceOrPending | src/action_correlation.rs:305-423 | whole run: every action offered is pending or settled exactly once, by a later call, with the receipt that call owes it: sequence, source, disposition, generation, and both latencies in whole microseconds from the instants of the calls |
| CorrelationRuns.SubmissionPresentsExactlyItsPrefix | src/action_correlation.rs:386-423 | a submission presents exactly the pending actions up to its sequence |
| CorrelationRuns.TerminalizingTwiceIsOnce | src/action_correlation.rs:366-381 | terminalizing again is a no-op |
| CorrelationRuns.LastPresentedIsHighest | src/action_correlation.rs:402-421 | whole run: the reported sequence is the highest ever presented |
| CorrelationRuns.SubmitSamplesAreTheReceipts | src/action_correlation.rs:402-421 | whole run: the submission window samples are the latencies of the presented receipts, in completion order |
| CorrelationRuns.CountersAreExact | src/action_correlation.rs:305-461 | whole run: the apply window holds one delay in microseconds per application that found one of the 512 places, every other application is counted, and the generation is the highest submitted |
| CorrelationRuns.ReaderHoldsEverythingExactlyWhenItKeepsUp | src/action_correlation.rs:441-474 | if and only if: a polling reader receives every receipt once and in completion order exactly when at most 512 were pushed between polls |
| CorrelationRuns.ReceiptsOnlyGrow | src/action_correlation.rs:465-474 | receipts of a run are only ever appended |
| CorrelationRuns.Sequencer.constructor | src/action_correlation.rs:137-143 | the counter starts at one |
| CorrelationRuns.Sequencer.EnvelopeAt | src/action_correlation.rs:150-170 | stamps the counter, never zero, and advances it past its maximum to one |
| CorrelationRuns.SequencesRepeatOnlyAfterAFullCycle | src/action_correlation.rs:158-164 | two stamps agree exactly when a whole cycle of 2^64 - 1 lies between them |
| TextLines.JoinSplit | scripts/verify-vendored-wgpu-hal.py:116-117 | joining the lines of a text gives the text |
| TextLines.SplitIsWellSplit | scripts/verify-vendored-wgpu-hal.py:116-117 | the lines of a text are single, and no two neighbours run into one another |
| TextLines.SplitOfJoin | scripts/verify-vendored-wgpu-hal.py:116-171 | if and only if: joined lines split into themselves again exactly when they are well split |
| TextLines.SplitAfterLines | scripts/verify-vendored-wgpu-hal.py:116-117 | lines in front of a text split off unchanged unless the last of them runs into it |
| TextLines.SplitExactly | scripts/verify-vendored-wgpu-hal.py:116-117 | if and only if: the split lines are the one list that joins to the text, each free of inner breaks and each but the last ending in one of ten characters or CR LF |
| HunkHeader.HeaderReadsExactly | scripts/verify-vendored-wgpu-hal.py:129-136 | if and only if: a line reads as four numbers exactly when it spells them, either count being optional and one if omitted, and anything may follow the closing marker |
| HunkHeader.NumbersAreDecimal | scripts/verify-vendored-wgpu-hal.py:138-147 | the numbers are decimal |
| HunkHeader.HeaderRoundTrip | scripts/verify-vendored-wgpu-hal.py:129 | a written hunk header reads back, for every four numbers and every heading behind it |
| HunkHeader.HeadersOpenWithMarker | scripts/verify-vendored-wgpu-hal.py:129-148 | every accepted header is a line the body loop stops at |
| UnifiedPatch.ApplyBody | scripts/verify-vendored-wgpu-hal.py:148-164 | the body loop succeeds exactly when the body decodes and its old side stands in the source, and emits its new side with the right counts; otherwise its error is the body's first fault |
| UnifiedPatch.ApplyHunk | scripts/verify-vendored-wgpu-hal.py:134-167 | one turn of the hunk loop is one step of decoding and splicing, or gives the first fault of what is left |
| UnifiedPatch.ApplyLines | scripts/verify-vendored-wgpu-hal.py:120-170 | the outer loop accepts exactly the patches that apply and leaves the specified lines; a refusal names the patch's fault |
| UnifiedPatch.PatchedLines | scripts/verify-vendored-wgpu-hal.py:120-170 | the lines an accepted patch leaves, and none for any other |
| UnifiedPatch.BodyFaultMeans | scripts/verify-vendored-wgpu-hal.py:148-164 | if and only if: a body has no fault exactly when it decodes and its old side stands in the source |
| UnifiedPatch.HunkFaultMeans | scripts/verify-vendored-wgpu-hal.py:134-167 | if and only if: hunks have no fault exactly when all of them decode and can be spliced in, in order |
| UnifiedPatch.RefusedExactlyForAFault | scripts/verify-vendored-wgpu-hal.py:120-170 | if and only if: a patch has a fault exactly when it leaves no lines |
| UnifiedPatch.ApplySingleFilePatch | scripts/verify-vendored-wgpu-hal.py:114-171 | over file contents: returns bytes exactly when both files decode and the patch applies, and then the encoding of the joined lines; which error any other pair of files gets |
| PatchReading.AcceptedExactlyWhen | scripts/verify-vendored-wgpu-hal.py:120-171 | if and only if: which patches are accepted, told by their characters alone, and what they leave: the kept and dropped lines stand at the header's line and give way to the kept and added ones |
| PatchReading.BodyErrorIsTheFirst | scripts/verify-vendored-wgpu-hal.py:148-158 | if and only if: the error of a body is that of its first line that does not stand, with its cause |
| PatchReading.HunkErrorIs | scripts/verify-vendored-wgpu-hal.py:134-166 | the errors of a hunk in their order: range, body, counts, then the hunks behind it |
| PatchReading.UnspelledIsOutside | scripts/verify-vendored-wgpu-hal.py:135-138 | what does not spell a header is outside any hunk |
| PatchReading.PatchErrorIs | scripts/verify-vendored-wgpu-hal.py:120-169 | if and only if: when the error is about a file header or the number of hunks |
| PatchReading.DecodingComesFirst | scripts/verify-vendored-wgpu-hal.py:115-119 | if and only if: contents that do not decode are refused as such |
| PatchLaws.HunksReplaceOnlyTheirRanges | scripts/verify-vendored-wgpu-hal.py:134-170 | any number of hunks: source and result are the same gaps around the old and the new sides |
| PatchLaws.AppliesExactlyWhenOneHunkFits | scripts/verify-vendored-wgpu-hal.py:120-170 | if and only if, on lists of lines: one well-formed hunk whose old side stands at its range; the result replaces that range |
| PatchLaws.ReversalUndoes | scripts/verify-vendored-wgpu-hal.py:120-170 | on lists of lines, before any joining: the reversed patch is accepted on the resulting lines and restores the source lines |
| PatchLaws.WrittenPatchApplies | scripts/verify-vendored-wgpu-hal.py:120-170 | on lists of lines: a patch written from edits and context takes the old lines to the new ones, whatever the heading of the hunk |
| PatchLaws.PureInsertionGoesBeforeItsLine | scripts/verify-vendored-wgpu-hal.py:139-143 | where a hunk without source lines inserts, and that line 0 is refused |
| PatchTexts.PatchedByHunk | scripts/verify-vendored-wgpu-hal.py:114-171 | on texts: the result is the joined lines in front of the hunk, its new side, and the lines behind it, exactly when the hunk fits |
| PatchTexts.SeamsDecide | scripts/verify-vendored-wgpu-hal.py:142-170 | the seams are clean exactly when the resulting lines are the lines of a text |
| PatchTexts.ReversedTextSplits | scripts/verify-vendored-wgpu-hal.py:116-117 | the reversed patch, as a text, splits into the reversed lines |
| PatchTexts.ReversalRestoresExactlyWhenSeamsAreClean | scripts/verify-vendored-wgpu-hal.py:114-171 | on texts, if and only if: the reversed patch restores the original exactly when the patch left clean seams |
| PatchTexts.OrdinaryPatchesReverse | scripts/verify-vendored-wgpu-hal.py:114-171 | when source and patch use line feeds only and end with one, every accepted patch reverses |
| PatchTexts.WrittenTextApplies | scripts/verify-vendored-wgpu-hal.py:114-171 | on texts: a patch written from edits a patch can hold, with any heading behind its hunk header, applies, cleanly exactly when the new lines are the lines of a text |
| PatchTexts.OpenAdditionIsNotUndone | scripts/verify-vendored-wgpu-hal.py:157-171 | an added line without a break in front of remaining text: the patch applies and its reversal is refused |
| PatchTexts.ReversalCanBeRefused | scripts/verify-vendored-wgpu-hal.py:157-171 | the smallest such text |
| PatchExistence.PatchFor | scripts/verify-vendored-wgpu-hal.py:114-171 | writes a patch from one text to another whenever there is one |
| PatchExistence.OnlyReachableTexts | scripts/verify-vendored-wgpu-hal.py:114-171 | an accepted patch only ever reaches such texts |
| PatchExistence.EveryChangeHasAPatchExactlyWhen | scripts/verify-vendored-wgpu-hal.py:114-171 | if and only if: some patch takes one text to another exactly when either of them ends its last line, or the result goes on where the source stops, or the unterminated last line of the source ends the result; and the path fits a header line |
| PatchExistence.NoPatchBetweenOpenLines | scripts/verify-vendored-wgpu-hal.py:153-154 | no patch takes one unterminated line to a different one |
| PatchSources.SameSourceExactlyWhen | scripts/verify-vendored-wgpu-hal.py:114-171 | if and only if: two texts with one result under one patch are the same exactly when the lines in front of its hunk are, and else those lines differ by one line feed behind a carriage return, below the same lines |
| PatchSources.ReturnFreeSourcesAreDetermined | scripts/verify-vendored-wgpu-hal.py:114-171 | among texts without carriage returns the result of any patch determines its source |
| PatchSources.TwoSourcesOneResult | scripts/verify-vendored-wgpu-hal.py:114-171 | two different texts with one result, the patch clean on one of them |
| PatchSources.TwoSourcesNeitherClean | scripts/verify-vendored-wgpu-hal.py:114-171 | the same with the patch clean on neither |
| VendorTree.VerifyTree | scripts/verify-vendored-wgpu-hal.py:174-218 | over file contents: accepts exactly the trees that are upstream minus omissions, plus pinned generated files, with one declared patch |
| VendorTree.AcceptsPathByPath | scripts/verify-vendored-wgpu-hal.py:174-218 | if and only if: what acceptance says of every path |
| VendorTree.ManifestDeterminesTree | scripts/verify-vendored-wgpu-hal.py:174-218 | where digests do not collide, manifest and upstream leave room for one tree and one patch |
| VendorTree.PathSetsMean | scripts/verify-vendored-wgpu-hal.py:182-194 | the four set differences are empty exactly when the path sets are as declared |
| VendorTree.ChangedMeans | scripts/verify-vendored-wgpu-hal.py:201-206 | only the declared file differs, and it does differ |
| VendorTree.AcceptedTreeHoldsUpstream | scripts/verify-vendored-wgpu-hal.py:174-218 | an accepted tree holds every kept upstream file as it is, and the patched one behind the reversed patch exactly when the patch is clean on it |
| VendorTree.AcceptedTreeDeterminesUpstream | scripts/verify-vendored-wgpu-hal.py:174-218 | two upstreams behind one accepted tree agree on every kept file but the patched one, and there if and only if they have the same line, or none, in front of the patch's hunk |
| VendorTree.CleanDeltaDeterminesUpstream | scripts/verify-vendored-wgpu-hal.py:174-218 | when the patch is clean on one of them, they agree on the patched file exactly when it is clean on both |
| JsonTree.DiffPathsAreDifferences | scripts/cyclonedx_sbom.py:719-736 | a path is reported exactly when the trees agree in shape down to it and differ there |
| JsonTree.DiffPathsSoundAndComplete | scripts/cyclonedx_sbom.py:719-736 | empty exactly for equal trees; reported subtrees differ; grafting them in yields the right tree |
| JsonTree.RenamedTwice | scripts/cyclonedx_sbom.py:786-790 | renaming slots twice is renaming once by the composition |
| JsonTree.RenamedOneMore | scripts/cyclonedx_sbom.py:786-790 | one in-place slot update extends the renaming by that slot |
| JsonTree.RenamedDiffers | scripts/cyclonedx_sbom.py:786-798 | a renaming differs from its tree exactly at the strings it changes |
| SbomLayout.ReferenceSlots | scripts/cyclonedx_sbom.py:382-416 | collects exactly the reference-bearing slots, or refuses exactly the malformed documents |
| SbomLayout.SlotsDistinct | scripts/cyclonedx_sbom.py:382-416 | no slot is visited twice |
| SbomLayout.SlotsAreWords | scripts/cyclonedx_sbom.py:388-415 | every slot holds a nonempty string |
| SbomNormalizer.RebasedIsInjective | scripts/cyclonedx_sbom.py:766-774 | exchanging the source prefix keeps references apart |
| SbomNormalizer.RebasedStaysReviewed | scripts/cyclonedx_sbom.py:808-815 | the normalized document passes the reference checks again, under its new base |
| SbomNormalizer.GraphIsRenamed | scripts/cyclonedx_sbom.py:800-807 | the normalized graph is the original under the reference map |
| SbomNormalizer.RewriteSlots | scripts/cyclonedx_sbom.py:783-793 | the in-place loop rewrites exactly the local slots, or finds a reference that only looks local |
| SbomNormalizer.NormalizeDocument | scripts/cyclonedx_sbom.py:739-820 | succeeds exactly under the stated inventory conditions, with every reference of the result in full and which error any other document gets; its checks on its own work are dead branches |
| SbomNormalizer.ReleaseTexts | scripts/cyclonedx_sbom.py:126-129 | every reference slot of the release document, in full: the tree page of the commit in place of the checkout |
| SbomNormalizer.MappingIsInjective | scripts/cyclonedx_sbom.py:766-781 | the reference map is injective and meets no nonlocal reference |
| SbomNormalizer.DifferenceIsTheLocalSlots | scripts/cyclonedx_sbom.py:796-798 | the structural difference is exactly the set of rewritten slots |
| SbomGraph.ValidateReferenceGraph | scripts/cyclonedx_sbom.py:514-549 | the accumulating pass accepts exactly the sound graphs and returns the graph the rows spell out; a fault is real, and at the first bad row |
| SbomGraph.EdgeFault | scripts/cyclonedx_sbom.py:533-540 | undeclared, repeated and self edges are refused, and nothing else |
| SbomGraph.DistinctBySize | scripts/cyclonedx_sbom.py:537 | comparing sizes detects exactly the repeated edges |
| SbomGraph.NormalizationKeepsGraphSound | scripts/cyclonedx_sbom.py:808-815 | a sound graph stays sound through normalization: rows, coverage, totals and root degree |
| SbomLaws.NormalizationKeepsSemanticProfile | scripts/cyclonedx_sbom.py:595-615 | the normalized document has the semantic profile of the original |
| SbomLaws.NormalizationIsCheckoutIndependent | scripts/cyclonedx_sbom.py:739-820 | documents with equal profile and timestamp normalize to the same document, whatever their checkouts |
| SbomLaws.MovingTheCheckoutChangesNothing | scripts/cyclonedx_sbom.py:739-820 | generating the same document in another directory changes nothing in the release document |
| SbomLaws.NormalizationPreservesTheGraph | scripts/cyclonedx_sbom.py:800-807 | the graphs are isomorphic: references stay apart, degrees and edges carry over both ways |
| SbomTexts.LayoutMeans | scripts/cyclonedx_sbom.py:342-379 | if and only if: 6 targets with exactly five fields and 359 libraries with the allowed ones, at their paths |
| SbomTexts.ReferencedMeans | scripts/cyclonedx_sbom.py:382-416 | if and only if: which documents have their reference slots collected |
| SbomTexts.SlotsAt | scripts/cyclonedx_sbom.py:382-416 | if and only if: the reference slots by their paths |
| SbomTexts.ReviewedMeans | scripts/cyclonedx_sbom.py:460-511 | if and only if: declared references are unique and start with the base, `registry+` or `git+`, every slot holds one of them, and no two rows share one |
| SbomTexts.CommitsAre | scripts/cyclonedx_sbom.py:126-128 | a commit is forty lower-case hexadecimal digits |
| SbomTexts.ReleasesNameTheirCommit | scripts/cyclonedx_sbom.py:763-767 | if and only if: releases of one document for two commits are the same exactly when the commits are |
| SbomTexts.NoNestedComponents | scripts/cyclonedx_sbom.py:342-379 | no component has components of its own, and there are 359 and 6 of them |
| SbomTexts.GraphRefers | scripts/cyclonedx_sbom.py:711-716 | if and only if: a reference is in the graph exactly when some row refers to it |
| SbomTexts.GraphSaysWhatRowsSay | scripts/cyclonedx_sbom.py:711-716 | if and only if: an edge is in the graph exactly when some row refers to its start and lists its end |
| SbomTexts.SoundGraphMeans | scripts/cyclonedx_sbom.py:514-549 | a sound graph in numbers: 360 references, the root and the top-level components, 856 edges, 35 from the root, none to itself |
| SbomTexts.SoundRowsHaveTwoFields | scripts/cyclonedx_sbom.py:523-525 | rows have no field but two |
| SbomTexts.ProfileIsAnonymous | scripts/cyclonedx_sbom.py:595-605 | the profile names two placeholders instead of source and time |
| Orthonormal.Adjoint | src/block_dct.rs:139-182 | analysis and synthesis are adjoint |
| Orthonormal.SynthesisInverts | src/block_dct.rs:158-182 | orthonormal columns make synthesis the inverse of analysis |
| Orthonormal.ColumnsGiveRows | src/block_dct.rs:139-182 | a square matrix with orthonormal columns has orthonormal rows |
| Orthonormal.AnalysisInverts | src/block_dct.rs:158-182 | and analysis is the inverse of synthesis |
| Orthonormal.Parseval | src/block_dct.rs:139-182 | samples and coefficients have the same energy |
| BlockDct.BlockEdge | src/block_dct.rs:108-111 | the block edge lies between 4 and 16 |
| BlockDct.StepIsPositive | src/block_dct.rs:193-195 | the quantiser step never falls below its floor |
| BlockDct.WriteBlock | src/block_dct.rs:233-257 | one block is written in place, and nothing around it |
| BlockDct.BlockDctLine | src/block_dct.rs:228-258 | the chunk loop computes the line law |
| BlockDctLaws.TransformRoundTrip | src/block_dct.rs:158-182 | reconstructing a transform gives the samples back |
| BlockDctLaws.ReconstructRoundTrip | src/block_dct.rs:158-182 | transforming a reconstruction gives the coefficients back |
| BlockDctLaws.CrushKeepsLuma | src/block_dct.rs:207-214 | the chroma crush keeps Rec.601 luma |
| BlockDctLaws.CrushCommutesWithTransform | src/block_dct.rs:197-216 | crushing coefficients is transforming crushed pixels, for any basis |
| BlockDctLaws.RoundingIsNearest | src/block_dct.rs:215 | quantisation moves a value by at most half a step |
| BlockDctLaws.ReconstructionKeepsDistance | src/block_dct.rs:165-182 | reconstruction is an isometry |
| BlockDctLaws.QuantisationError | src/block_dct.rs:207-216 | every quantised coefficient is within half its step of the crushed pixels' coefficient |
| BlockDctLaws.BlockErrorIsBounded | src/block_dct.rs:228-258 | per channel, the squared error of a block against the crushed line is at most the sum of the squared half steps |
| BlockDctLaws.RoundingLandsOnTheLattice | src/block_dct.rs:215 | rounding lands on a whole multiple of the step, and keeps such multiples |
| BlockDctLaws.OutputCoefficientsOnLattice | src/block_dct.rs:207-258 | every coefficient of an output block is a whole multiple of its own step |
| BlockDctLaws.SecondPassChangesNothing | src/block_dct.rs:228-258 | without chroma crush the law is idempotent on blocks |
| BlockDctLaws.ChunksAreIndependent | src/block_dct.rs:232-257 | every chunk of the output, the short tail included, depends on its own chunk of the line only |
| BlockDctNumbers.StepInNumbers | src/block_dct.rs:193-195 | the step is (0.004 + quantize / 2) (1 + 2 penalty u), growing with u exactly when there is a penalty |
| BlockDctNumbers.EdgeInNumbers | src/block_dct.rs:108-111 | the edge is the whole part of 4 + 12 block |
| BlockDctNumbers.ChunkInNumbers | src/block_dct.rs:232-257 | where every chunk of a line lies, and that it is the law of its own pixels |
| BlockDctNumbers.CrushInNumbers | src/block_dct.rs:207-214 | a crushed channel is luma plus what is left of the difference to it |
| BlockDctNumbers.TransformsAreSums | src/block_dct.rs:139-182 | coefficients and samples are sums over rows and columns of the basis |
| BlockDctNumbers.RoundingInNumbers | src/block_dct.rs:215 | rounding takes the nearest multiple of the step, the upper one of two as near |
| BlockDctNumbers.NearestIsUnique | src/block_dct.rs:215 | and there is only one |
| BlockDctNumbers.OutputCoefficientInNumbers | src/block_dct.rs:207-258 | every coefficient of an output block, in the controls: the nearest multiple of its step to the coefficient after the chroma crush |
| BlockDctNumbers.BlockErrorInNumbers | src/block_dct.rs:228-258 | the energy bound in the controls, in closed form |
| FilterAvalanche.Span | src/filter_avalanche.rs:171-174 | the span lies between 2 and 32 taps |
| FilterAvalanche.WalkTaps | src/filter_avalanche.rs:250-273 | the tap loop with its early stop and masks sums the first floor(span) taps |
| FilterAvalanche.WritePixel | src/filter_avalanche.rs:243-281 | one pixel of the double loop, in place |
| FilterAvalanche.AvalancheReference | src/filter_avalanche.rs:222-285 | the double loop equals the pointwise law, pixels past the frame and bypassed frames unchanged |
| AvalancheLaws.WalkTelescopes | src/filter_avalanche.rs:250-273 | along SUB and UP the masked, clamped walk is one difference of two history pixels, and zero at the lane's start |
| AvalancheLaws.PixelLawInClosedForm | src/filter_avalanche.rs:243-281 | unfired lanes keep the carrier; fired pixels are carrier plus telescoped error plus DC, wrapped into [0, 1) |
| AvalancheLaws.CorruptionStaysInItsLane | src/filter_avalanche.rs:243-281 | a pixel depends on its own lane of the history only |
| AvalancheLaws.FlatLanesCarryNoError | src/filter_avalanche.rs:250-273 | a flat lane accumulates nothing, whatever the span |
| AvalancheNumbers.TapsInNumbers | src/filter_avalanche.rs:171-174 | the taps are the whole part of 2 + 40 run, at most 32 |
| AvalancheNumbers.EpochInNumbers | src/filter_avalanche.rs:177-182 | three epochs a second, saturating |
| AvalancheNumbers.BypassInNumbers | src/filter_avalanche.rs:232-235 | if and only if: when the frame passes through |
| AvalancheNumbers.HistoryIs | src/filter_avalanche.rs:236-239 | which history the walk reads |
| AvalancheNumbers.PixelInNumbers | src/filter_avalanche.rs:243-281 | every channel of every pixel, all predictors: the carrier on lanes that do not fire, and on the others a value in [0, 1) a whole number away from carrier + 1.6 amount walk + 0.25 amount DC |
| AvalancheNumbers.WalkInNumbers | src/filter_avalanche.rs:250-273 | the walk along SUB and UP as two pixels of the history |
| AvalancheNumbers.DiagonalTapInNumbers | src/filter_avalanche.rs:250-273 | every tap along AVERAGE, with its texels and its mask |
| AvalancheNumbers.WalkAddsTaps | src/filter_avalanche.rs:250-273 | the walk is the sum of its taps |
| BoundedJson.ParseBudget.constructor | src/bounded_json.rs:225-227 | a fresh budget |
| BoundedJson.ParseBudget.Consume | src/bounded_json.rs:39-48 | takes one node, or refuses and takes none |
| BoundedJson.Deserialize | src/bounded_json.rs:57-75 | the recursive builder gives the walk's error, or the tree itself and the walk's remaining budget |
| BoundedJson.VisitSeq | src/bounded_json.rs:172-185 | the array loop does |
| BoundedJson.VisitMap | src/bounded_json.rs:187-212 | the object loop does, refusing invalid and repeated keys |
| BoundedJson.WalkAcceptsExactly | src/bounded_json.rs:39-212 | acceptance is exactly: depth, nesting, sizes, finiteness and keys within limits, and no more nodes than budget; each node costs one |
| BoundedJson.CallerLimitComesFirst | src/bounded_json.rs:62-67 | a depth limit below the JSON library's own nesting limit leaves that one nothing to refuse |
| BoundedJson.ParseBoundedJson | src/bounded_json.rs:215-238 | a document is accepted exactly when it is within every limit, the JSON library's own nesting limit included, and nothing follows it; the value is the raw tree, and the error that of the walk |
| BoundedJsonLaws.VisitedAreTheLocations | src/bounded_json.rs:57-212 | the budget is charged exactly at the locations of the returned value |
| BoundedJsonLaws.NoLocationTwice | src/bounded_json.rs:199-209 | and never twice at one |
| BoundedJsonLaws.BudgetSpentIsTheValuesSize | src/bounded_json.rs:39-75 | the nodes consumed are the nodes of the value returned |
| BoundedJsonLaws.CostDependsOnTheTreeOnly | src/bounded_json.rs:187-212 | documents of one tree cost the same, whatever the order of their members |
| BoundedJsonLaws.AcceptedValueIsBounded | src/bounded_json.rs:57-212 | every location of an accepted value is within both depth limits, its strings and keys within theirs |
| BoundedJsonLaws.ValueIsUnique | src/bounded_json.rs:172-212 | a raw tree stands for one value |
| BoundedJsonTexts.WidthsAre | src/bounded_json.rs:84-93 | a character takes one to four bytes, by its number |
| BoundedJsonTexts.LengthsAdd | src/bounded_json.rs:84-93 | byte lengths add up |
| BoundedJsonTexts.LengthIsBounded | src/bounded_json.rs:84-93 | a text has between one and four bytes a character |
| BoundedJsonTexts.KeysAre | src/bounded_json.rs:192-198 | if and only if: which keys are valid, with the control characters by number |
| BoundedJsonTexts.AdmittedExactlyWhen | src/bounded_json.rs:57-212 | if and only if: a tree is admitted exactly when every node of it is within every limit |
| BoundedJsonTexts.ErrorsAreTrue | src/bounded_json.rs:57-212 | every error says something true of some node of the document, or of their number |
| BoundedJsonTexts.ValueIsTheDocument | src/bounded_json.rs:77-212 | every node of the document is in the value, at its location, as it was read |
| ActionPhoton.LeadingRun | src/action_photon.rs:166-170 | the maximal stretch of the first trial id |
| ActionPhoton.RunsSegment | src/action_photon.rs:161-196 | the trials are maximal, and concatenate to the recording |
| ActionPhoton.SegmentationIsUnique | src/action_photon.rs:161-196 | there is no other such segmentation |
| ActionPhoton.RisingEdge | src/action_photon.rs:220-229 | the time of the first upward crossing |
| ActionPhoton.RisingEdgeIsEarliest | src/action_photon.rs:220-229 | in an ordered trial that is the earliest crossing in time |
| ActionPhoton.LatencyIsDisplayMinusInput | src/action_photon.rs:171-195 | a trial yields v exactly when bounded, ordered and v is first display edge minus first input edge, not negative |
| ActionPhoton.Analyze | src/action_photon.rs:141-218 | the segmentation loop with its error order, sorting and percentiles computes the analysis |
| ActionPhoton.ReportsExactlyMeasurableRecordings | src/action_photon.rs:141-218 | if and only if: sound headers and 1 to 4096 measurable trials; the overall sample cap then never refuses; one latency per trial |
| ActionPhoton.FirstBadTrialIsReported | src/action_photon.rs:161-196 | the first unmeasurable trial decides the error |
| ActionPhoton.SummaryIsOrdered | src/action_photon.rs:200-207 | min <= p50 <= p95 <= p99 <= max, all measured latencies |
| ActionPhoton.ReportIgnoresTrialClocks | src/action_photon.rs:171-195 | moving any trial's clock changes no report and no error |
| ActionPhoton.ReportIgnoresTrialOrder | src/action_photon.rs:161-207 | reordering whole trials that stay apart changes neither acceptance nor statistics |
| PhotonReports.TrialOutcome | src/action_photon.rs:166-195 | the outcome of a trial: the first of its faults in order, or the time from its first light to its first show |
| PhotonReports.SummaryInNumbers | src/action_photon.rs:200-207 | the percentiles have the nearest ranks 50, 95 and 99 among the latencies, and the ends are the least and the greatest |
| PhotonReports.HeadersComeFirst | src/action_photon.rs:141-159 | the errors of unsound headers, in their order |
| PhotonReports.RecordingOutcome | src/action_photon.rs:161-207 | the outcome of a recording, for the one way to cut it into trials: the first bad trial, the trial cap, no trial at all, or the report |
| CreativeMutation.StagingArea.constructor | src/creative_mutation.rs:159-163 | an empty pending list |
| CreativeMutation.StagingArea.Stage | src/creative_mutation.rs:159-181 | one insertion: duplicate of the last, full, or appended |
| CreativeMutation.StagingTakesTheFirstChanges | src/creative_mutation.rs:156-181 | whole stream: what is left is the first max_pending items with adjacent duplicates collapsed |
| CreativeMutation.RefusalIsReportedExactlyOnOverflow | src/creative_mutation.rs:176-178 | a refusal is reported exactly when there are more changes than fit |
| CreativeMutation.FullAtIsFirst | src/creative_mutation.rs:176-180 | when the list becomes full |
| CreativeMutation.FillerIsTheLastKept | src/creative_mutation.rs:176-180 | the delivery that fills the list stays its last item |
| CreativeMutation.RefusalsAndLosses | src/creative_mutation.rs:170-180 | whole stream: refusals are the deliveries to a full list unlike its last item; changes lost are those unlike the delivery before them |
| CreativeMutation.RefusalsEqualLossesExactlyWhen | src/creative_mutation.rs:166-180 | if and only if: refusals equal changes lost exactly when refused items are repeated as often as the stream returns to the last item kept |
| CreativeMutation.RefusalsCountDeliveriesNotChanges | src/creative_mutation.rs:166-178 | both ways the count can differ from the loss, as instances of the condition |
| CreativeMutation.CandidateIs | src/creative_mutation.rs:50-105 | what an action puts forward, and which adapter it names |
| CreativeMutation.TakesIgnoreProvenance | src/creative_mutation.rs:136-181 | streams with the same canonical events record the same take, whatever their origins and raw carriers |
| CreativeMutation.ReplayIsInvisible | src/creative_mutation.rs:50-105 | replayed actions record nothing and do not separate the edits around them |
| AlphaExport.PartitionPoint | src/alpha_export.rs:665-667 | the number of leading thresholds at or below the value |
| AlphaExport.DeriveBlackFill | src/alpha_export.rs:617-637 | fills every pixel in place, opaque, or refuses mismatched buffers untouched |
| AlphaExport.DeriveKey | src/alpha_export.rs:641-653 | the key is the source alpha in every channel, opaque |
| AlphaExport.SearchCounts | src/alpha_export.rs:665-667 | a threshold is at or below the value exactly when it is counted |
| AlphaExport.EncodingInvertsDecoding | src/alpha_export.rs:36-38 | encoding undoes decoding on every code |
| AlphaExport.OverBlackRounds | src/alpha_export.rs:630-632 | the product is within half a step of exact, and exact at alpha 0 and 255 |
| AlphaExport.FillIsMonotone | src/alpha_export.rs:614-637 | black at alpha 0, the source at 255, monotone in channel and alpha |
| AlphaExport.FillInNumbers | src/alpha_export.rs:629-633 | one byte of the fill: the code between whose thresholds the nearest value to channel times alpha lies |
| AlphaExport.LengthErrorIs | src/alpha_export.rs:655-663 | which buffers are refused, and the length the error names |
| AlphaExport.FillUnderKey | src/alpha_export.rs:614-653 | never brighter than the source, black where the key is black, the source where it is white |

## Left out

- Floating-point rounding, the values of the cosine basis, non-finite inputs and the parameter sanitizers' fallbacks: the DCT and avalanche are over exact reals, with a basis whose columns are orthonormal.
- AvalancheLaws.WalkTelescopes: says nothing of the AVERAGE predictor, whose step is the literal 0.7071 and does not telescope; its taps are given one by one in AvalancheNumbers.DiagonalTapInNumbers.
- The lane hash: avalanche draws are an arbitrary function, and 32-bit truncation of lane numbers is not modelled.
- AutopilotTiming.PunctualPlanSpendsItsBeats: assumes the 64-bit beat ordinal does not saturate before the plan ends; AcceptedBeatsCountAdmittedCrossings covers saturation. PlayCompletesAfterItsHolds inherits this.
- AutopilotTokens.TokensNeverAlias: runs of fewer than 2^64 events; beyond that the counters wrap and tokens do repeat.
- The host's texture staging, asynchronous preparation, status text and manual performance lane: the host appears only as the outcome of each cut and staging.
- CorrelationRuns.LastPresentedIsHighest: for runs whose caller never passes the Presented disposition as a terminal one, which the source asserts in debug builds.
- Memory ordering of the atomic sequence counter: one stamp is one atomic step; clocks are natural numbers of nanoseconds.
- UTF-8 itself: file contents are decoded and encoded by a parameter, inverse on what decodes. Decimal digits outside ASCII in hunk headers.
- Hash functions: vendored-file digests and the semantic profile digest are compared as abstract values; the profile itself is compared instead of its hash.
- Downloading, archives, the file system, and the self-test of the vendored-source verifier.
- SbomNormalizer.NormalizeDocument: of the profile checks it models the component layout, the reference slots, unique declarations and declared references; header fields, path policy, exact reference spellings, inventory by kind and the final search for retained source paths are left out, and case folding is a parameter.
- SbomGraph.ValidateReferenceGraph: takes a document whose reference slots have already been accepted, as its caller does.
- BoundedJson.Deserialize: starts from the tokenizer's raw tree; byte-level syntax and number formats belong to the JSON library, and its optional-value callback never occurs for JSON. The parser keeps that library's default nesting limit, which is not written in the repository: `LIBRARY_NESTING` is the 127 levels that serde_json 1 reads.
- AlphaExport.FillIsMonotone: the two 8-bit tables are parameters that bracket one another, and their 511 literals are not part of this model.
- The alpha publishers (staging directories, PNG and FFV1 encoding, receipts): input and output.
- ActionPhoton.Analyze: fixture digest, display mode and threshold are copied into the source's receipt unchanged and do not appear here.
- CreativeMutation.StagingArea.Stage: value encoding is a parameter, and equality of laws is structural, so the two zeros of a floating-point range count as different.

# Mouth-cue timelines, schedules and selection, in Dafny

This project models the mouth-cue side of the benchmark scripts and proves what
they rely on. It covers

- the incremental cue engine: an append-only ledger of mouth cues on the integer
  sample clock, the single-server schedule of recognition passes that feeds it,
  the comparison of two timelines, and the playback delay derived from a run log
  (`CueTimeline`, `CueLedger`, `Disagreement`, `PrefixSchedule`, `RollingBound`,
  `Playback`, `Strategy`, `ReportedDelay`,
  `DelayExamples`);
- import of recognizer output and the review cue file, from centisecond decimals
  to sample frames, printed text and back (`RhubarbImport`, `ReviewCues`, `CueText`);
- the mouth atlas, from frame features to states: farthest-first seeding, medoid
  iteration, what becomes of states that share a place, spike removal
  (`FeatureSpace`, `FarthestFirst`, `Medoids`, `MedoidPlaces`, `SurplusStates`,
  `MouthAtlas`, `LabelSmoothing`);
- rendering decisions: the edge-tracing dynamic program, the ordered lip-strip
  map, and state selection with dwell and hysteresis (`EdgeTrace`, `LipStrips`,
  `StateSelector`);
- benchmark aggregation and the validator that checks it again (`MetricReport`).

`dafny verify dfyconfig.toml` checks everything.

## How the model reads

Floating-point numbers are reals, so `round` is exact. Frames are integers.
Recognizer output and the time a pass takes are an arbitrary function of the
window and the pass number; scores, costs and features are arbitrary inputs.
Raised exceptions are `Failure` results. A well-formed recognizer answers every
non-empty window of the audio with a timeline of exactly that window; an empty
window is a failed pass, as the importer makes it (`EmptyWindowFails`).

A timeline stands for its frames: `Frames(cues)` is the shape of every sample in
order. The ledger is specified through frames alone (append the new ones, encode
the whole afresh), and the clipping and merging loops of `accept` are proved to
compute exactly that. Disagreement is specified as the number of positions at
which two frame sequences differ.

Results that go beyond what the scripts say, or differ from it:

- A rolling window never loses the commit cursor exactly when the first prefix
  fits the window, a cadence step fits between holdback and window, and a pass
  either never outlasts a step or, together with a step, fits that same room plus
  one frame. `SafeBudgetSuffices` covers every schedule; `SafeBudgetIsNecessary`
  builds, for any other budget, audio and a well-formed recognizer that lose it.
  The argument parser accepts configurations outside this condition, for instance
  a first prefix longer than the window.
- The run log keeps times in thousandths of a millisecond and the report rounds
  the delay again, so the reported delay can be off by up to 0.001 ms in either
  direction on the unrounded clock (`ReportedDelayOnTheRealClock`). In
  `RoundedDelayExample` a benchmark of one frame reports a delay that underruns,
  and another one longer than needed. In any run the report is the least safe delay
  exactly if that delay is a whole number of thousandths and, should the log be off
  by a full half thousandth, an even one (`ReportedDelayIsExact`). Unless some finish
  time and the horizon it has to meet both lie between thousandths, the finish time
  midway, whole alone decides (`SteadyReportIsExact`); `MidwayDelayExample` shows why
  that is needed. Where all horizons are whole thousandths, the report is off by at
  most 0.0005 ms (`WholeHorizonsHalveTheMargin`).
- "Committed intervals are immutable" holds of frames, and of every cue but the
  last. The last cue keeps its start and shape, its end never moves back, and it
  stays as it is exactly when the next commit starts with another shape
  (`AcceptKeepsCues`, and over whole runs `RunKeeps`); `LengthenedCueExample` is a
  cue that grows from 10 to 20 frames.
- The tail check of the importers is not passed at every sample rate. It passes
  for every window exactly at the rates described by `TailSafe`, which include all
  rates at most 50 above a multiple of 100. Both importers take every centisecond
  timeline that ends at the truncated duration exactly at those of these rates from
  100 samples a second on (`ImportsExactly`, `PreparesExactly`); in `UnsafeRateExample`
  a window at 153 samples a second is refused whatever was recognized.
- The seeding works on squared distances, which are no metric. The factor of two
  is proved for the distances themselves, by way of a factor of four for the squares.
- Medoid iteration never raises the summed distance even when frames share
  feature vectors. The medoids have pairwise different features exactly when that
  many different features exist. With fewer, an update can give one frame to two
  states (`RepeatedMedoidExample`) and the iteration never settles, but two updates
  lead back to the seeds, so the 64th returns them: the medoids of the result are
  always different frames (`IterationEndsDistinct`).

## Model

| member | source | states |
|---|---|---|
| `CueTimeline.ValidateContiguous` | scripts/benchmarks/benchmark-incremental-mouth-cues.py:102-111 | Reports the first fault in the order of the checks, and none exactly for a non-empty timeline of known shapes whose cues are non-empty and each start where the one before ends. |
| `CueTimeline.FaultIsTheFirst` | scripts/benchmarks/benchmark-incremental-mouth-cues.py:102-111 | The fault reported is that of the first faulty cue: an unknown shape before an empty or misplaced cue, and only an empty list has no cues. |
| `CueTimeline.RunLengthUnique` | scripts/benchmarks/benchmark-incremental-mouth-cues.py:92-98 | Two timelines in run-length form with the same frames are the same list of cues. |
| `CueTimeline.EncodeRoundTrip` | scripts/benchmarks/benchmark-incremental-mouth-cues.py:92-98 | Run-length encoding any frame sequence gives contiguous cues with differing neighbours that decode to those frames. |
| `CueTimeline.EncodeCanonical` | scripts/benchmarks/benchmark-incremental-mouth-cues.py:92-98 | Every run-length timeline is the encoding of its own frames. |
| `CueTimeline.EncodeGrows` | scripts/benchmarks/benchmark-incremental-mouth-cues.py:92-98 | Encoding more frames keeps every cue but the last, and the last exactly when the first added frame shows another shape. |
| `CueLedger.ImmutableCueLedger.constructor` | scripts/benchmarks/benchmark-incremental-mouth-cues.py:52-58 | A new ledger is live, empty and committed to frame 0. |
| `CueLedger.ImmutableCueLedger.Open` | scripts/benchmarks/benchmark-incremental-mouth-cues.py:52-58 | A generation below 1 is refused, any other gives a fresh empty ledger. |
| `CueLedger.ImmutableCueLedger.Cancel` | scripts/benchmarks/benchmark-incremental-mouth-cues.py:60-62 | Cancelling is a step of the ledger's state machine: it stops the ledger's own generation and no other, and leaves the timeline alone. |
| `CueLedger.ImmutableCueLedger.Accept` | scripts/benchmarks/benchmark-incremental-mouth-cues.py:64-99 | Answers False exactly for another or a cancelled generation and True exactly when the commit then stands at the watermark, raises otherwise, and moves to the state that appends the recognized frames and encodes the whole afresh; any other answer changes nothing. |
| `CueLedger.Project` | scripts/benchmarks/benchmark-incremental-mouth-cues.py:77-91 | Clipping succeeds exactly when the recognized cues reach back to the cursor and on to the watermark, tiles that span with the recognized frames, and otherwise says which end is missing. |
| `CueLedger.ImmutableCueLedger.CommitProjected` | scripts/benchmarks/benchmark-incremental-mouth-cues.py:92-98 | The merging loop leaves the run-length form of the old frames followed by the new ones. |
| `CueLedger.AcceptsExactly` | scripts/benchmarks/benchmark-incremental-mouth-cues.py:70-99 | For a live generation and a watermark ahead of the commit, acceptance holds exactly for valid cues that start at or before the commit and reach the watermark; the new frames carry the recognized shapes. |
| `CueLedger.AnswersExactly` | scripts/benchmarks/benchmark-incremental-mouth-cues.py:70-91 | In every state: False exactly for another or a cancelled generation; True exactly when nothing is to be committed or contiguous cues reach from the commit to the watermark; otherwise which error, in order; the commit then stands at the watermark, or the state is unchanged. |
| `CueLedger.RunKeeps` | scripts/benchmarks/benchmark-incremental-mouth-cues.py:49-99 | Over every run of accepts and cancels: cues tile the committed frames in run-length form, the watermark never moves back, no committed frame changes its shape, every committed cue but the last stays as it is, the last too exactly if the next frame shows another shape, a cancelled ledger is frozen. |
| `CueLedger.CommittedCues` | scripts/benchmarks/benchmark-incremental-mouth-cues.py:92-98 | Between any two states of which one keeps the frames of the other, all cues but the last are the same, the last keeps start and shape and never ends earlier, and is the same exactly when the next frame shows another shape. |
| `CueLedger.AcceptKeepsCues` | scripts/benchmarks/benchmark-incremental-mouth-cues.py:64-99 | One accepted commit leaves every committed cue but the last, and leaves the last exactly when the recognized shape changes at the commit. |
| `CueLedger.LengthenedCueExample` | scripts/benchmarks/benchmark-incremental-mouth-cues.py:93-96 | A committed cue that the next commit lengthens. |
| `CueLedger.CancelFreezes` | scripts/benchmarks/benchmark-incremental-mouth-cues.py:60-71 | Whatever follows a cancel of the own generation, the committed timeline stays the one at the cancel. |
| `CueLedger.StaleEventsVanish` | scripts/benchmarks/benchmark-incremental-mouth-cues.py:60-71 | Dropping every event of another generation from a run changes nothing. |
| `CueLedger.ChunkingDoesNotMatter` | scripts/benchmarks/benchmark-incremental-mouth-cues.py:64-99 | Committing one timeline through any increasing watermarks gives the same ledger as one commit at the last of them. |
| `CueLedger.ChunksEncodeTheTimeline` | scripts/benchmarks/benchmark-incremental-mouth-cues.py:64-99 | From an empty ledger the chunks add up to the run-length form of the recognized frames. |
| `Disagreement.MergeCount` | scripts/benchmarks/benchmark-incremental-mouth-cues.py:260-271 | The two-pointer loop counts the frames whose shapes differ, and exhausts both lists together. |
| `Disagreement.DisagreementFrames` | scripts/benchmarks/benchmark-incremental-mouth-cues.py:255-271 | Succeeds exactly on contiguous timelines of one range, and otherwise raises the first fault. |
| `Disagreement.DisagreementIsAMetric` | scripts/benchmarks/benchmark-incremental-mouth-cues.py:255-271 | Disagreement is symmetric, zero exactly on equal frames, at most the length of the range, and satisfies the triangle inequality. |
| `Playback.SafePlaybackStart` | scripts/benchmarks/benchmark-incremental-mouth-cues.py:274-283 | Returns the largest demand any run makes on the delay; an empty log raises. |
| `Playback.DelayIsLeast` | scripts/benchmarks/benchmark-incremental-mouth-cues.py:274-283 | For any run log, exactly the delays from the returned one upward play every frame no earlier than the run that commits it finished. |
| `Playback.LoggedDelayIsClose` | scripts/benchmarks/benchmark-incremental-mouth-cues.py:338-371 | Finish times off by at most some slack move the least safe delay by at most that. |
| `Playback.ReportedDelayIsClose` | scripts/benchmarks/benchmark-incremental-mouth-cues.py:338-371 | Rounding in the log and in the report together moves the least safe delay by at most 0.001 ms. |
| `PrefixSchedule.EndpointsShape` | scripts/benchmarks/benchmark-incremental-mouth-cues.py:244-252 | Endpoints start at the first prefix, lie one step apart, strictly increase, and end at the total after a last gap of at most a step. |
| `PrefixSchedule.StepsForward` | scripts/benchmarks/benchmark-incremental-mouth-cues.py:310-358 | Each pass takes a later endpoint, starts after the pass before it has finished, and never lowers the watermark; only the last pass may commit everything. |
| `PrefixSchedule.TickShape` | scripts/benchmarks/benchmark-incremental-mouth-cues.py:311-334 | No pass starts before its audio has arrived; its window and watermark are those of its endpoint. |
| `PrefixSchedule.RunsForward` | scripts/benchmarks/benchmark-incremental-mouth-cues.py:310-358 | Between any two passes of a run, endpoints strictly advance and finish times and watermarks never go back. |
| `PrefixSchedule.ScheduleDetermined` | scripts/benchmarks/benchmark-incremental-mouth-cues.py:310-358 | Plan and recognizer determine the schedule pass by pass. |
| `Strategy.NextIndex` | scripts/benchmarks/benchmark-incremental-mouth-cues.py:352-358 | The next pass takes the newest endpoint that has arrived, or the very next one if none beyond it has. |
| `RollingBound.SlowAdvance` | scripts/benchmarks/benchmark-incremental-mouth-cues.py:310-358 | However many endpoints are skipped, one advance stays short of a step plus the time budget. |
| `RollingBound.FastAdvance` | scripts/benchmarks/benchmark-incremental-mouth-cues.py:310-358 | If no pass outlasts a step, no endpoint is skipped and every pass but the last starts as its audio arrives. |
| `RollingBound.SafeBudgetSuffices` | scripts/benchmarks/benchmark-incremental-mouth-cues.py:302-361 | Under a safe budget every window of every schedule reaches back to the commit cursor. |
| `RollingBound.SafeBudgetIsNecessary` | scripts/benchmarks/benchmark-incremental-mouth-cues.py:302-361 | Any other budget is lost by some audio length, some well-formed recognizer within the budget, and its schedule. |
| `Strategy.LossMeansFailure` | scripts/benchmarks/benchmark-incremental-mouth-cues.py:310-358 | Once a schedule has lost the cursor, no run of that plan and recognizer completes. |
| `Strategy.DependablePassesAccepted` | scripts/benchmarks/benchmark-incremental-mouth-cues.py:310-358 | With well-formed recognition, and for the rolling window a safe budget, the ledger takes every pass. |
| `Strategy.RunPasses` | scripts/benchmarks/benchmark-incremental-mouth-cues.py:302-358 | The pass loop follows the schedule, succeeds exactly if every pass is accepted, covers the total, logs each pass, and every committed frame is what its pass recognized; accepted cue counts add up to the cues. |
| `Strategy.BenchmarkStrategy` | scripts/benchmarks/benchmark-incremental-mouth-cues.py:286-385 | Succeeds exactly when the run completes and the baseline covers the audio; never raises on a dependable recognizer; the log follows strategy, durations and recognizer, and the report's cues, delay and disagreement are those of the run. |
| `Strategy.LogFollows` | scripts/benchmarks/benchmark-incremental-mouth-cues.py:302-351 | In the log of a completed run every window starts at 0 (growing) or a window before its prefix ends (rolling), all but the held-back frames are committed and the last pass commits everything, prefixes start at the initial duration and grow by whole steps, and each pass starts when its audio is there and the pass before is done. |
| `Strategy.StableRecognitionIsReproduced` | scripts/benchmarks/benchmark-incremental-mouth-cues.py:310-362 | If recognition does not depend on the window, both strategies end with the run-length form of the truth. |
| `ReportedDelay.ReportedDelayOnTheRealClock` | scripts/benchmarks/benchmark-incremental-mouth-cues.py:338-371 | On unrounded times the reported delay plus 0.001 ms never underruns, and anything more than 0.001 ms below it does. |
| `ReportedDelay.ReportedDelayIsExact` | scripts/benchmarks/benchmark-incremental-mouth-cues.py:338-371 | In every run, exactly the delays from the reported one upward are safe on the unrounded clock if and only if the least safe delay is a whole number of thousandths, and the log is off by less than half a thousandth or that number is even. |
| `ReportedDelay.SteadyReportIsExact` | scripts/benchmarks/benchmark-incremental-mouth-cues.py:338-371 | If no finish time lies midway between thousandths, or the horizon it has to meet is a whole thousandth, the report is the least safe delay exactly when that is a whole number of thousandths. |
| `ReportedDelay.WholeHorizonsHalveTheMargin` | scripts/benchmarks/benchmark-incremental-mouth-cues.py:274-283 | With whole horizons and any finish times the report is within 0.0005 ms of the least safe delay, and equal to it exactly when that is a whole number of thousandths. |
| `DelayExamples.OneFrameIsAPlan` | scripts/benchmarks/benchmark-incremental-mouth-cues.py:286-303 | The plan of the one-frame benchmark is what the shortest durations give. |
| `DelayExamples.RoundedDelayExample` | scripts/benchmarks/benchmark-incremental-mouth-cues.py:338-371 | Two complete benchmarks of one frame: one reports a delay that underruns, the other one longer than needed. |
| `DelayExamples.TwoFramesIsAPlan` | scripts/benchmarks/benchmark-incremental-mouth-cues.py:286-303 | The plan of the two-frame benchmark is what the shortest durations give. |
| `DelayExamples.MidwayDelayExample` | scripts/benchmarks/benchmark-incremental-mouth-cues.py:338-371 | A complete benchmark of two frames whose least safe delay is a whole number of thousandths and is not the one reported. |
| `Strategy.DefaultBudget` | scripts/benchmarks/benchmark-incremental-mouth-cues.py:407-410 | At the default durations and any rate, the budget is safe exactly up to two seconds and at most two frames (exactly one at rates divisible by four), so 2000 ms are always safe. |
| `RhubarbImport.ParseRhubarb` | scripts/benchmarks/benchmark-incremental-mouth-cues.py:120-154 | Accepts exactly the output that meets all checks and otherwise says which failed; then covers the PCM window to the frame with only the last end moved; the second validation cannot fail. |
| `RhubarbImport.FitToWindow` | scripts/benchmarks/benchmark-incremental-mouth-cues.py:145-154 | Succeeds exactly for contiguous cues that start with the window and end a short tail before it, moves only the last end, and otherwise says which check failed. |
| `RhubarbImport.ImportableIs` | scripts/benchmarks/benchmark-incremental-mouth-cues.py:131-150 | What is accepted, in seconds: duration and last cue end less than a hundredth of a second before the window, and not after it. |
| `RhubarbImport.EmptyWindowFails` | scripts/benchmarks/benchmark-incremental-mouth-cues.py:120-154 | No recognizer output is accepted for an empty window. |
| `RhubarbImport.CentisecondRounding` | scripts/benchmarks/benchmark-incremental-mouth-cues.py:114-117 | On whole hundredths of a second, half-up rounding is integer division with 50 added. |
| `RhubarbImport.CentisecondsImport` | scripts/benchmarks/benchmark-incremental-mouth-cues.py:136-144 | At 100 samples a second or more, every centisecond timeline becomes contiguous non-empty frame cues. |
| `RhubarbImport.SlowRatesCollapse` | scripts/benchmarks/benchmark-incremental-mouth-cues.py:114-117 | Below 100 samples a second some two neighbouring centiseconds fall on one frame. |
| `RhubarbImport.TailFitsExactly` | scripts/benchmarks/benchmark-incremental-mouth-cues.py:131-150 | The tail check passes for every window exactly at the safe rates. |
| `RhubarbImport.UsualRatesAreSafe` | scripts/benchmarks/benchmark-incremental-mouth-cues.py:131-150 | Every rate at most 50 above a multiple of 100 is safe. |
| `RhubarbImport.UnsafeRateExample` | scripts/benchmarks/benchmark-incremental-mouth-cues.py:131-150 | At 153 samples a second a window of 26 frames is refused at its truncated duration, whatever was recognized in it. |
| `RhubarbImport.CentisecondImportIsExact` | scripts/benchmarks/benchmark-incremental-mouth-cues.py:120-154 | At a safe rate of at least 100, any timeline that ends at the truncated duration is accepted. |
| `RhubarbImport.ImportsExactly` | scripts/benchmarks/benchmark-incremental-mouth-cues.py:120-154 | Every centisecond timeline that ends at the truncated duration of its window is accepted exactly at the safe rates from 100 samples a second on. |
| `ReviewCues.PrepareRows` | scripts/benchmarks/prepare-review-mouth-cues.py:32-46 | Accepts exactly the output that meets all checks, and then the rows partition the audio with shapes as categories and only the last end moved. |
| `ReviewCues.CategoriesAre` | scripts/benchmarks/prepare-review-mouth-cues.py:16 | Each recognizer shape has its category; only B and H, and E and F, share one. |
| `ReviewCues.CentisecondRowsAreExact` | scripts/benchmarks/prepare-review-mouth-cues.py:30-46 | Truncated centisecond timelines are accepted at the same rates. |
| `ReviewCues.PreparesExactly` | scripts/benchmarks/prepare-review-mouth-cues.py:30-46 | Every centisecond timeline that ends at the truncated duration becomes rows at exactly the same rates. |
| `ReviewCues.ImportersAgree` | scripts/benchmarks/prepare-review-mouth-cues.py:38-46 | Where both importers accept, the rows are the cues with shapes mapped to categories. |
| `ReviewCues.LookupIsExact` | scripts/benchmarks/render-current-pixel-mouth-proof.py:626-627 | Every sample of the audio falls in exactly one row, whose category the lookup returns. |
| `CueText.CueFileRoundTrip` | scripts/benchmarks/render-current-pixel-mouth-proof.py:517-522 | The printed text of any rows reads back as the same rate and the same rows. |
| `CueText.FileLines` | scripts/benchmarks/prepare-review-mouth-cues.py:48-50 | The first line holds format name, rate, count and digest, each further line one row, with single spaces between. |
| `CueText.ReadFileCoversEverySample` | scripts/benchmarks/prepare-review-mouth-cues.py:46-50 | After the round trip every sample still falls in exactly one tuple, and it carries the category the lookup returns. |
| `FeatureSpace.PairwiseSquaredIsCoherent` | scripts/benchmarks/prototype-viseme-atlas.py:134-139 | The expanded form is the sum of squared differences; it is symmetric, satisfies the relaxed triangle inequality, and frames at no distance are interchangeable. |
| `FarthestFirst.Seed` | scripts/benchmarks/prototype-viseme-atlas.py:154-160 | Seeds are distinct, start at the frame nearest the neutral portrait, and each is the first of the frames farthest from those before it. |
| `FarthestFirst.SeedsAreTwoApproximate` | scripts/benchmarks/prototype-viseme-atlas.py:154-160 | For any metric, farthest-first seeds cover every frame within twice the radius of any choice of as many frames. |
| `FeatureSpace.SeedingIsTwoApproximate` | scripts/benchmarks/prototype-viseme-atlas.py:154-160 | For any feature vectors, the squared covering radius of the seeds is at most four times that of any choice of as many frames. |
| `Medoids.UpdateMedoids` | scripts/benchmarks/prototype-viseme-atlas.py:164-173 | Every non-empty cluster gets its member of least summed distance as medoid, an empty one the farthest frame not yet taken. |
| `Medoids.MiddleIsFirst` | scripts/benchmarks/prototype-viseme-atlas.py:172-173 | Among several members of least summed distance the first becomes the medoid. |
| `Medoids.UpdateNeverCostsMore` | scripts/benchmarks/prototype-viseme-atlas.py:162-177 | One update never raises the summed distance to the nearest medoid. |
| `MedoidPlaces.UpdateKeepsScattered` | scripts/benchmarks/prototype-viseme-atlas.py:162-177 | While medoids stand at different places no cluster is empty, each medoid lies in its own, and the updated medoids stand at different places. |
| `MedoidPlaces.EnoughPlacesSpreadSeeds` | scripts/benchmarks/prototype-viseme-atlas.py:155-160 | If as many frames at pairwise different places exist, the seeds stand at different places. |
| `Medoids.EmptyClusterExactly` | scripts/benchmarks/prototype-viseme-atlas.py:166-171 | A cluster is empty exactly when an earlier medoid stands at the same place. |
| `Medoids.Iterate` | scripts/benchmarks/prototype-viseme-atlas.py:162-177 | The medoids come from the seeds by at most 64 updates, each of which changed something; fewer than 64 only if another update would change nothing. |
| `Medoids.TraceNeverCostsMore` | scripts/benchmarks/prototype-viseme-atlas.py:162-177 | Over the whole iteration the summed distance to the nearest medoid never exceeds that of the seeds. |
| `Medoids.FixedPointIsCentered` | scripts/benchmarks/prototype-viseme-atlas.py:164-175 | Where an update changes nothing, no member of a cluster has a smaller summed distance to it than its medoid. |
| `SurplusStates.UpdateRefillsSurplus` | scripts/benchmarks/prototype-viseme-atlas.py:164-173 | With more states than places, an update keeps the lowest frame of every place and gives each other state the lowest frame that is free, or frame 0 if none is. |
| `SurplusStates.TwoUpdatesReturn` | scripts/benchmarks/prototype-viseme-atlas.py:162-177 | With more states than places, one update never keeps the seeds and two give them back. |
| `SurplusStates.IterationEndsDistinct` | scripts/benchmarks/prototype-viseme-atlas.py:154-177 | Every iteration ends with different frames; they stand at different places exactly if that many places exist, and are the seeds after 64 updates if not. |
| `SurplusStates.RepeatedMedoidExample` | scripts/benchmarks/prototype-viseme-atlas.py:164-173 | Two equal frames and two states: an update of frames 0 and 1 gives frame 0 twice. |
| `Medoids.NeutralFirst` | scripts/benchmarks/prototype-viseme-atlas.py:179-185 | The medoid nearest the neutral portrait comes first; the medoids and their cost stay the same. |
| `MouthAtlas.PlacesAreVectors` | scripts/benchmarks/prototype-viseme-atlas.py:134-139 | Frames stand at different places exactly if their features differ. |
| `MouthAtlas.EarlyStopIsCentered` | scripts/benchmarks/prototype-viseme-atlas.py:162-177 | If the iteration stops early, enough features differ and every medoid is a middle of its own cluster. |
| `MouthAtlas.KMedoids` | scripts/benchmarks/prototype-viseme-atlas.py:142-187 | Raises exactly for a bad state count or a neutral feature of another width, in that order; otherwise the medoids are different frames, those of the last update with the most neutral and state 0 exchanged, no costlier than the seeds, with pairwise different features exactly if that many exist, and every frame is assigned to its first nearest medoid. |
| `Medoids.AssignmentIsNearest` | scripts/benchmarks/prototype-viseme-atlas.py:186-187 | Every frame is assigned to a nearest medoid, the first of them. |
| `LabelSmoothing.SmoothLabels` | scripts/benchmarks/prototype-viseme-atlas.py:190-199 | One in-place pass leaves no spike, keeps both ends and every run of two or more position for position, and a second pass changes nothing. |
| `LabelSmoothing.VisitOutcome` | scripts/benchmarks/prototype-viseme-atlas.py:196-198 | Each position ends as the spike rule says, read against the finished left neighbour and the input right neighbour. |
| `LabelSmoothing.FixedExactlyWhenSpikeFree` | scripts/benchmarks/prototype-viseme-atlas.py:190-199 | The pass changes nothing exactly on labels without a spike. |
| `EdgeTrace.Trace` | scripts/benchmarks/render-current-pixel-mouth-proof.py:127-139 | The back-pointer walk returns a path whose cost, its scores plus 0.003 times its squared departures from the reference, is the final minimum, and no assignment of levels to columns costs less. |
| `EdgeTrace.PathCostIs` | scripts/benchmarks/render-current-pixel-mouth-proof.py:129-132 | A path costs the sum of its scores plus 0.003 times the sum of the squared differences between its steps and those of the reference. |
| `EdgeTrace.ReferenceIsFree` | scripts/benchmarks/render-current-pixel-mouth-proof.py:127-132 | A path costs exactly its scores if and only if every level step equals the reference step, and otherwise more. |
| `EdgeTrace.FlatFieldFollowsReference` | scripts/benchmarks/render-current-pixel-mouth-proof.py:127-132 | Where no level scores better than another, a best path moves with the reference if any path can. |
| `EdgeTrace.BandIsKept` | scripts/benchmarks/render-current-pixel-mouth-proof.py:121-122 | If some path inside the allowed band stays below the mask, a best path never leaves the band. |
| `LipStrips.MiddleStripsAlwaysOrdered` | scripts/benchmarks/render-current-pixel-mouth-proof.py:419-455 | The three middle strips can never raise the ordering error; under contact the middle target strip is closed at the seam. |
| `LipStrips.WarpColumn` | scripts/benchmarks/render-current-pixel-mouth-proof.py:398-458 | Raises exactly for a narrow mouth, a crossed contour or an unordered outer strip; otherwise fills every height with its strip sample. |
| `LipStrips.EdgesAre` | scripts/benchmarks/render-current-pixel-mouth-proof.py:421-447 | Where all strip boundaries lie: gaps split 0.32 to 0.68 by the seam, the target gap the given part of the way from the source gap to the wanted one and at least 0.12, closed under contact, lips of unchanged height, and what is sampled under contact. |
| `LipStrips.NoStrengthKeepsTheGap` | scripts/benchmarks/render-current-pixel-mouth-proof.py:435-437 | At strength 0 the gap is that of the source. |
| `LipStrips.FullStrengthTakesTheWantedGap` | scripts/benchmarks/render-current-pixel-mouth-proof.py:432-437 | At strength 1 it is the wanted gap, at least 0.12. |
| `LipStrips.WiderApertureOpensMore` | scripts/benchmarks/render-current-pixel-mouth-proof.py:432-437 | From 0.02 on, a larger aperture never opens the mouth less. |
| `LipStrips.GapStaysCapped` | scripts/benchmarks/render-current-pixel-mouth-proof.py:432-437 | At the strengths the script allows, the gap lies between the source gap and the wanted one, and never exceeds both the source gap and the cap. |
| `LipStrips.ColumnMap` | scripts/benchmarks/render-current-pixel-mouth-proof.py:437-458 | The vertical map is strictly increasing, fixes the outside, and without contact is undone by the map with knots exchanged. |
| `LipStrips.LipsMoveRigidly` | scripts/benchmarks/render-current-pixel-mouth-proof.py:437-442 | Lip thickness is unchanged, and without contact each lip is a pure translation. |
| `LipStrips.ContactHidesTheCavity` | scripts/benchmarks/render-current-pixel-mouth-proof.py:443-458 | Under contact every height is sampled at least 0.15 outside the source's inner gap, before the fade. |
| `StateSelector.RenderAll` | scripts/benchmarks/render-multi-observation-mouth-residual.py:501-558 | Over whole runs: frames are bypassed exactly outside the pose range and its margins; the first state shown is the cheapest; a state change has no bypass before it, follows two frames of the old state, and goes to the cheapest state, more than 0.25 below holding; every other frame is within 0.25 of the cheapest or has to dwell. |
| `StateSelector.CostIs` | scripts/benchmarks/render-multi-observation-mouth-residual.py:522-523 | A state costs its distance from the last one shown, in parts of the atlas and at most 0.35, on top of its own cost, and nothing if it is that state or none was shown. |
| `StateSelector.ChangeIsWorthIt` | scripts/benchmarks/render-multi-observation-mouth-residual.py:524-529 | Where a run changes its state, two frames showed the old one, and the new one undercuts it by more than 0.25 even with its distance added, and undercuts every other state with theirs. |
| `StateSelector.KeptIsCheap` | scripts/benchmarks/render-multi-observation-mouth-residual.py:524-529 | A state shown in the two frames before and kept is within 0.25 of every other with its distance added. |
| `MetricReport.PercentileInterpolates` | scripts/benchmarks/benchmark_harness.py:89-102 | Where n - 1 times the probability is a rank and a fraction, the percentile is the sample of that rank, or the mean of it and the next weighted by the fraction. |
| `MetricReport.PercentileIs` | scripts/benchmarks/benchmark_harness.py:89-102 | For every list and number: the two errors, and otherwise the sample at that part of the ranks or the mean of its two neighbours weighted by the fraction. |
| `MetricReport.WeightedIs` | scripts/benchmarks/benchmark_harness.py:101-102 | The weighted mean of two neighbours is the first times one minus the fraction plus the second times the fraction. |
| `MetricReport.PercentRank` | scripts/benchmarks/benchmark_harness.py:95-102 | A whole number of percent in integers: rank and weight are quotient and remainder of percent times n - 1 by 100. |
| `MetricReport.PercentileOfOne` | scripts/benchmarks/benchmark_harness.py:95-100 | One sample is every percentile of itself. |
| `MetricReport.MedianOfTwo` | scripts/benchmarks/benchmark_harness.py:95-102 | The median of two samples is halfway between them. |
| `MetricReport.PercentileIgnoresOrder` | scripts/benchmarks/benchmark_harness.py:95-102 | The percentile does not depend on sample order. |
| `MetricReport.PercentileOrdered` | scripts/benchmarks/benchmark_harness.py:96-102 | The percentile is monotone in the probability and lies between the least and the greatest sample. |
| `MetricReport.BuiltRowPasses` | scripts/benchmarks/benchmark_harness.py:252-269 | For any monotone rounding, the row built from any samples passes the validator's checks. |
| `MetricReport.UniformLabel` | scripts/benchmarks/benchmark_harness.py:211-215 | Returns the one label all samples carry, and raises exactly when there are none or several. |
| `MetricReport.SummarizeRows` | scripts/benchmarks/benchmark_harness.py:211-269 | Raises exactly for mixed execution modes, mixed measurement kinds or a metric without a sample, in that order; otherwise one row per metric from that metric's values, a report that passes the validator, and sample counts that add up to the records. |
| `MetricReport.RoundMillionthsIsWhole` | scripts/benchmarks/benchmark_harness.py:105-106 | A rounded figure is a whole number of millionths. |
| `MetricReport.RowFigures` | scripts/benchmarks/benchmark_harness.py:252-269 | Each row gives count, least and greatest sample, mean, and the percentiles at 50, 95 and 99 hundredths of the ranks, to the millionth. |
| `MetricReport.ValidateMetrics` | scripts/benchmarks/benchmark_harness.py:410-504 | Passes exactly the reports with a known classification, eligibility as the classification and system demand, and one row per metric with its unit, description and classification, whose counts, signs, percentile order and mean are right. |
| `MetricReport.PassingReport` | scripts/benchmarks/benchmark_harness.py:410-496 | A passing report has a known mode and kind, is eligible exactly for live measurements on Windows, and its rows carry that classification, their metric's unit and description, and 1 to 1,000,000 samples. |

## Left out

- The Rust and C++ runtime, the control application and the workers.
- Recognizer processes, temporary files, cancellation of child processes and timeouts: a pass is an arbitrary result and an arbitrary elapsed time.
- Image work: landmark detection, optical flow, remapping, blurs, masks, video encoding.
- Report plumbing: hashes, receipts, identifiers, machine fields, the reason given for a classification, the summary figures of a strategy other than cues, log, delay and disagreement.
- Floating-point error and the 28-digit decimal context: arithmetic is exact.
- A shape value that is not a single character: shapes are characters, and every character outside the recognizer's nine is an unknown shape.
- Fields of the recognizer's JSON that are missing or of another type; the sound-file comparison is a flag.
- CueText.CueFileRoundTrip: integers are read without Python's underscores and non-ASCII digits, and text is taken after newline translation; neither occurs in printed files.
- EdgeTrace.Trace: takes the score as given for any number of columns and levels, at least one of each; sampling of the image and the confidence figure are not modelled.
- LipStrips.WarpColumn: works on one column, whose contour heights and lens shape are inputs; the horizontal map, the fade and the later area checks are not modelled.
- StateSelector.RenderAll: takes the audio, pose and class cost of each state as given, and leaves out the occlusion argument, which the frame loop never sets.
- MetricReport.SummarizeRows: works for any list of definitions with distinct names; samples are taken as the input validation passes them on.
- MetricReport.ValidateMetrics: checks the classification and the metrics of a report; its identity, source, bounds and machine objects are not modelled.
- MouthAtlas.KMedoids: takes the features as a rectangular array; another number of dimensions is not modelled.

# A verified model of TortureU's experiment engine

TortureU runs chaos and load experiments against a containerised system from one
`torture.yaml`. This project models, in Dafny, the parts of it that keep state
over a run and the arithmetic that schedules the load, and proves properties of
them that span several functions, a whole run, or every interleaving.

| module | what it models |
|---|---|
| `Linearizability` | the emitted history checker: splitting by key, the register model, the exit code, and why the split is sound |
| `FaultLifecycle` | apply, track, teardown and the signal goroutine as interleaved steps |
| `ContainerLimits` | cpu and memory limits stacked on containers and undone by the fault manager |
| `TeardownRace` | one limit under concurrent applies, expiries and teardowns together |
| `Scheduler` | when each declared fault is applied, over the marker stream |
| `Redelivery` | the duplicate fault's loop on the topic it also feeds |
| `SharedTopic` | several such loops on one topic |
| `CoDrivers` | the tools started beside k6, their stop paths, and the marker tee |
| `Recorder` | the capturing proxy's timeline under concurrent requests |
| `ErrorRate` | the WireMock stub cycle that fails a proportion of requests, and its rollback |
| `Pacer` | load stages, the emitted schedule table and the open-model pacer |
| `PhaseClock` | the clocks that k6, the co-driven tools and the observability emitters derive from one profile |
| `Weights` | the two emitted scenario pickers |
| `Percentile` | nearest-rank percentiles and the replay counters |
| `Routing` | from a declared fault to the layer that applies it, with every re-check on the way |
| `Coverage` | three-valued registry predicates over facts settled from manifests |
| `Clients` | which dependencies a service's manifest shows it to be a client of |
| `Thresholds` | splitting and recomputing k6 thresholds |
| `Sequences` | shared sequence vocabulary, with a sort proved correct in place of Go's `sort` package |

Concurrent protocols (`FaultLifecycle`, `TeardownRace`, `Redelivery`, `SharedTopic`, `CoDrivers`, `Recorder`) are
state machines: a datatype of steps, each step being what the source does between
two points where another goroutine can run; `Leads(s, steps, t)` says that the
steps lead from `s` to `t`. The theorems are about every such run. Code that
updates objects in place is a class (`ContainerLimits.Manager`, `Redelivery.Topic`,
`Recorder.Recorder`, `ErrorRate.WireMock`, `Coverage.Detection`, `Clients.Inventory`, `Thresholds.Summary`), and loops are
methods with invariants. Code that TortureU emits (the Go checker, the Python
locustfile, the k6 script) is modelled as code.

Assumptions about the environment: `docker inspect` reads a limit and
`docker update` writes one, or fails and changes nothing; a poll returns records
past the last offset; a refused POST appends nothing; WireMock hands out unused,
non-empty ids and may refuse any delete; the porcupine
library's decided answers are right about each part it is given; k6's
ramping-arrival-rate executor ramps linearly from each stage's target to the
next, starting at `startRate`; `math/rand` yields draws in [0, 1). Go and Python
floats are reals.

Where the code falls short of what is promised of it, the code is modelled as it
is and the exact condition is proved; where the condition is about a run, a
failing run is given as well:

- `Teardown` is said to remove every fault applied so far. At the moment it takes
  its list it does so if and only if no apply is between its applier call and its
  track (`FaultLifecycle.SwapTakesEveryAppliedFault`, `StrandedUntilAnotherTeardown`,
  `SignalCanStrandAnApply`). When `caught` fires, nothing applied is left if and only
  if nothing is untracked or listed and every Teardown, not the signal's alone, has
  finished (`FaultLifecycle.AllUndoneIff`, `CaughtCanComeBeforeAnUndo`).
- A captured CPU limit at or below half a hundredth of a core is restored as no
  limit at all (`ContainerLimits.RestoreForgetsTinyLimit`).
- Applies to one limit that overlap each other, a Teardown, or the life of a fault
  with a `for:` duration can leave a fault's limit in force for good although every
  undo runs (`TeardownRace.OverlapCanLoseTheOriginal`,
  `SwapDuringApplyCanLeaveALimit`, `ApplyDuringTeardownCanLeaveALimit`,
  `OverlappingForFaultsLeaveALimit`). Whatever the limits, a run restores the
  original, memory exactly and CPU to within 0.005 core, if its bare schedule does;
  and, unless a fault sets a limit that could pass for the original, only then
  (`TeardownRace.RestoredIff`). Under the same proviso, one round of applies is
  restored exactly when the undo that wrote last had read the limit before every
  update (`OneRoundRestoresIff`), and one Teardown over it exactly when the first
  apply tracked had (`OverlapRestoresIff`).
- A co-driven tool is stopped if and only if its handle was stored before the
  first stop read the handles (`CoDrivers.StoppedIffStoredBeforeStop`,
  `StopCanMissARunningTool`).
- An exchange that read its clock before the one that fixed the epoch is recorded
  as having no history (`Recorder.HistoryIffStartedAfterEpoch`,
  `EarlierReaderCanLoseItsHistory`).
- A failed create rolls back to the earlier stubs if and only if it left no stub
  of its own and every rollback delete was accepted (`ErrorRate.RollbackClears`).
- The k6 script and the locustfile drive one rate at every instant if and only if
  every hold that lasts keeps the rate already in force
  (`Pacer.EnginesAgreeIffHoldsDoNotJump`, `FirstHoldIsRamped`), and give every scenario one share of the
  traffic if and only if there is at most one, every weight is positive, or the
  weights are mirrored below zero (`Weights.SharesAgreeIff`,
  `OmittedWeightsAreReadTwoWays`). The k6 fallback is
  never reached if and only if some running total of the weights is positive; with
  every weight left out it always is, and only the last scenario runs
  (`Weights.NeverFallsBackIff`, `Weights.FallbackIff`). Counting whole draws, k6
  gives every scenario its weight if and only if no weight is negative
  (`Weights.EachScenarioGetsItsWeightIff`).
- netem, pumba and Chaos Mesh write one figure for a bandwidth, but Chaos Mesh's
  carries another unit. By the units of tc(8), which its text is said to follow, it
  asks for eight times what the other two do
  (`Routing.ChaosMeshAsksForEightTimes`); they ask for one throughput if and only
  if `kbps` is read as a thousand bits (`Routing.EmittersAgreeIff`).
- The emitters' phase offset is k6's marker at every stage if and only if each stage
  lasts as long for both (`PhaseClock.OffsetIsMarkerIff`), and the co-driven tools'
  bound follows k6's clock if and only if each stage does
  (`PhaseClock.DriveSumIsProfileIff`); a profile that also sets the duration its
  rate does not use can put the offset past the marker (`OffsetCanPassMarker`).
- `.nan` passes every range check on proportions and percentages
  (`Routing.FractionCheckMissesOnlyNaN`, `Routing.PercentIsInRange`), and an
  accepted `error_rate` is refused by its owner if and only if its `status` is
  present and not a number (`Routing.OwnersAcceptWhatIsPassed`,
  `TextStatusIsRefusedByItsOwner`).
- The order of a registry predicate's alternatives matters when a fact is unknown
  (`Coverage.LeadingUnknownHidesAMatch`, `Coverage.SoundForKleene`).

## Model

| member | source | states |
|---|---|---|
| `Linearizability.Locality` | internal/emit/porcupine.go:154-185 | a history whose operations all return no earlier than they were called is linearizable as a store of string registers if and only if every part is linearizable as one register |
| `Linearizability.StoreIsItsRegisters` | internal/emit/porcupine.go:176-185 | a sequential run is legal for the store exactly when each key's subsequence is legal for Init and Step |
| `Linearizability.PlaceFits` | internal/emit/porcupine.go:227-237 | placing each operation of a legal order at the latest call so far keeps the order and puts every operation between its own call and return |
| `Linearizability.MergeForKey` | internal/emit/porcupine.go:154-157 | merging the orders of different keys by instant leaves each key's own order unchanged |
| `Linearizability.Assemble` | internal/emit/porcupine.go:154-185 | explanations of any distinct keys combine into one order that respects real time and still explains each of them |
| `Linearizability.Partition` | internal/emit/porcupine.go:159-175 | the parts are the history split by key in sorted key order, whatever order the map yields its keys in |
| `Linearizability.StringLessIff` | internal/emit/porcupine.go:169 | the order of the keys is the lexicographic one: a key sorts first exactly where it first differs by a smaller character or by ending |
| `Linearizability.PartitionSplitsExactly` | internal/emit/porcupine.go:159-175 | the parts together are exactly the history, each keeps its key's original order, and no key has two parts |
| `Linearizability.LocalityNeedsTheClockCheck` | internal/emit/porcupine.go:227-230 | without the return-before-call refusal there is a history whose parts are all linearizable and which is not |
| `Linearizability.CheckHistory` | internal/emit/porcupine.go:208-277 | for every history whose entries the lines are, in order, all fields carried over and blank lines anywhere: exit 0 only if it is a linearizable store history, exit 1 only if it is not; exit 2 exactly for an unreadable, unusable, empty or undecided one |
| `FaultLifecycle.ExactlyOnePlace` | internal/fault/manager.go:26-87 | in every reachable state the undo of each successful apply is once in exactly one of: not yet tracked, the manager's list, one Teardown's private list, already run |
| `FaultLifecycle.ReverseTrackingOrder` | internal/fault/manager.go:74-87 | every Teardown runs its own contiguous stretch of the tracking order strictly backwards, past failing undos |
| `FaultLifecycle.FailuresAreReported` | internal/fault/manager.go:79-87 | in every reachable state the errors a Teardown has joined are exactly those of its undos that failed, in the order they ran |
| `FaultLifecycle.CaughtAfterTeardown` | internal/fault/manager.go:102-124 | a value on caught means the signal's Teardown has run all it took |
| `FaultLifecycle.DrainedRanOnce` | internal/queuefault/manager.go:50-87 | once the list is empty and nothing is in flight, every undo has run exactly once |
| `FaultLifecycle.Preserved` | internal/queuefault/manager.go:22-119 | every step of either manager, the signal goroutine's included, keeps the lifecycle invariant |
| `FaultLifecycle.SwapTakesEveryAppliedFault` | internal/fault/manager.go:47-78 | a Teardown's swap covers every fault applied so far if and only if no apply is waiting to track |
| `FaultLifecycle.StrandedUntilAnotherTeardown` | internal/fault/manager.go:62-78 | an undo that missed a swap stays unrun through any further run without another Teardown |
| `FaultLifecycle.SignalCanStrandAnApply` | internal/fault/manager.go:62-113 | a run in which the signal's Teardown comes between an apply and its track, reports, and leaves that fault listed with no Teardown at work |
| `FaultLifecycle.AllUndoneIff` | internal/fault/manager.go:94-113 | at any moment, the firing of caught included, every applied fault has been undone exactly when none is untracked or listed and every Teardown has finished |
| `FaultLifecycle.CaughtCanComeBeforeAnUndo` | internal/fault/manager.go:94-113 | a run in which caught fires while another Teardown has yet to run the one undo there is |
| `ContainerLimits.Manager.Apply` | internal/fault/manager.go:51-67 | it succeeds exactly when the limit exists, is read and is updated; then the declared limit is in force and the one it replaced is tracked last, else nothing changes |
| `ContainerLimits.Manager.Teardown` | internal/fault/manager.go:74-87 | the list is emptied, the world is the list unwound last to first, and the undos reported are exactly those that failed, last first |
| `ContainerLimits.LastAppliedIsInForce` | internal/run/docker_applier.go:124-148 | after any stack of attempts a container holds the limit of the last successful one on it, or what it held before if there was none |
| `ContainerLimits.FirstUndoCapturesOriginal` | internal/run/docker_applier.go:124-148 | however deep the stack, the first tracked undo of a limit holds its original value |
| `ContainerLimits.EarliestSuccessDecides` | internal/fault/manager.go:80-86 | after Teardown a limit holds what the earliest-tracked successful undo wrote, and is as before if none succeeded |
| `ContainerLimits.StackedLimitsAreRestored` | internal/run/docker_applier.go:124-148 | any stack of limits, torn down, returns memory limits exactly and CPU limits within 0.005 core (exactly when the original is a whole number of hundredths) |
| `ContainerLimits.RestoredIsNear` | internal/run/docker_applier.go:249-258 | what cpusFromNanoCPUs writes back is within 0.005 core of what was captured, and equal exactly for whole hundredths |
| `ContainerLimits.RestoreForgetsTinyLimit` | internal/run/docker_applier.go:249-258 | a captured CPU limit is restored as "no limit" exactly when it is at most half a hundredth of a core |
| `TeardownRace.RestoredIff` | internal/fault/manager.go:47-113 | for any run at all, overlaps, expiries and failing undos included, and any original and limits: if the bare schedule ends with no limit the original is restored, memory exactly and CPU within 0.005 core, and, unless a fault sets a limit that could pass for the original, only then |
| `TeardownRace.WholeLimitsRestoredIff` | internal/run/docker_applier.go:124-148 | where limits are whole hundredths and none is the original, restored means equal |
| `TeardownRace.SameRun` | internal/run/docker_applier.go:124-148 | two runs of one schedule keep step: a value descends from the original in the one just when it is unmarked in the other |
| `TeardownRace.RewritingStaysAway` | internal/run/docker_applier.go:249-258 | rounding never brings a value that could not pass for the original to where it could |
| `TeardownRace.OneRoundRestoresIff` | internal/run/scheduler.go:69-127 | if no apply begins after an undo, any overlap of applies, expiries and Teardowns restores the original if the undo that wrote last had read it before every update, and, under the same proviso, only then |
| `TeardownRace.DirtyIff` | internal/run/docker_applier.go:124-131 | a reading counts as late exactly if some apply had updated before it |
| `TeardownRace.OverlapRestoresIff` | internal/run/scheduler.go:69-112 | applies that overlap each other in any way and one Teardown restore the original if the first apply tracked had read it before every update, and, under the same proviso, only then |
| `TeardownRace.OrderlyRunsRestore` | internal/fault/manager.go:47-87 | over any run whose applies, for: faults and Teardowns on a limit do not overlap and whose deciding undos succeed, in any number of rounds, the limit is restored whenever everything is undone |
| `TeardownRace.OrderlyKeepsInv` | internal/run/docker_applier.go:124-148 | what is still to be undone ends with the original, through the list, the apply in flight or the Teardown at work |
| `TeardownRace.RewritingStaysNear` | internal/run/docker_applier.go:249-258 | however often a CPU limit is read and written back, it is rounded only once |
| `TeardownRace.UndoPreserves` | internal/fault/manager.go:80-86 | each undo of a Teardown, failing ones before the last included, keeps that chain back to the original |
| `TeardownRace.SwapDuringApplyCanLeaveALimit` | internal/fault/manager.go:102-113 | a run with one signal Teardown between an apply's update and its track, after which all is undone and a fault's limit remains |
| `TeardownRace.ApplyDuringTeardownCanLeaveALimit` | internal/run/scheduler.go:69-112 | the same when an apply inspects after a Teardown's swap and before its undo |
| `TeardownRace.OverlapCanLoseTheOriginal` | internal/run/scheduler.go:69-112 | a run of two overlapping applies after which one Teardown leaves a fault's limit in place |
| `TeardownRace.OverlappingForFaultsLeaveALimit` | internal/run/scheduler.go:114-127 | a run of two for: faults, the first to start also the first to expire, after which its limit remains |
| `Scheduler.ScheduleFaults` | internal/run/scheduler.go:130-178 | over any marker stream that ends, every declared fault has exactly one record: applied at its own offset from the run's start or from the first marker of its phase, refused for its duration, or never fired |
| `Scheduler.DueIsAsDeclared` | internal/run/scheduler.go:130-178 | what is due of an anchor is what it declares: its offset past the start or past the first marker of its phase, or never when no marker names the phase |
| `Scheduler.MeetMarker` | internal/run/scheduler.go:156-174 | a marker starts exactly the waiting faults of its phase, and the others wait on |
| `Scheduler.NeverFiresIff` | internal/run/scheduler.go:144-155 | a fault never fires exactly if it is anchored to a phase that no marker names, and further markers change no other outcome |
| `Redelivery.MarkRoundTrip` | internal/applier/broker_applier.go:30-38 | a marked value is exactly the prefix before some value, and gives that value back |
| `Redelivery.OrdinaryRecordsAreUnmarked` | internal/applier/broker_applier.go:28-36 | a record that does not begin with a zero byte is never taken for a copy |
| `Redelivery.AmplificationIsBounded` | internal/applier/broker_applier.go:139-166 | in every run each copy is of a different unmarked record, never of a copy, and the log is at most twice what others produced |
| `Redelivery.Preserved` | internal/applier/broker_applier.go:214-244 | each step of the loop, its polls and other producers keeps the log invariant |
| `Redelivery.RateZeroCopiesNothing` | internal/applier/broker_applier.go:40-46 | at rate 0 the loop appends nothing in any run |
| `Redelivery.RateIsTheShare` | internal/applier/broker_applier.go:40-46 | for every rate in 0..1 the rolls in [0, 1) that duplicate are one stretch whose length is the rate |
| `Redelivery.EvenRollsCopyTheRate` | internal/applier/broker_applier.go:230-243 | at rate k/n, n unmarked, decodable, accepted records whose rolls are 0/n to (n-1)/n in any order give exactly k copies |
| `Redelivery.BatchDuplicatesRight` | internal/applier/broker_applier.go:230-243 | the copies of a batch are its unmarked, decoded, accepted records whose roll is below the rate, each once, marked and in order |
| `Redelivery.RateOneCopiesEachOnce` | internal/applier/broker_applier.go:230-243 | at rate 1, when records decode and posts are accepted, each consumed unmarked record has exactly one copy |
| `Redelivery.NothingAfterUndo` | internal/applier/broker_applier.go:156-166 | once undo has returned the loop appends nothing more |
| `Redelivery.RestIsForever` | internal/applier/broker_applier.go:230-243 | with no other producer, once only marked records lie ahead the log never changes again |
| `Redelivery.GrowthIsBoundedAhead` | internal/applier/broker_applier.go:146-153 | from any moment on, whatever polls fail or are lost and whatever does not decode, the loop on its own adds at most one record per unmarked one it has yet to handle |
| `Redelivery.BatchShrinksWork` | internal/applier/broker_applier.go:230-243 | handling a batch lowers the work left by at least the batch's size, copies included |
| `Redelivery.Topic.RedeliverOnce` | internal/applier/broker_applier.go:214-244 | one poll, refused, lost or read, consumes its batch, appends the marked copies of exactly the records whose roll is below the rate, k of n for evenly spread rolls at rate k/n, and lowers the work left |
| `Redelivery.Topic.Drain` | internal/applier/broker_applier.go:146-153 | with no other producer the loop catches up with the log it feeds within the work there was at first, whatever polls are refused, empty or lost and whatever does not decode |
| `SharedTopic.SharedAmplificationIsBounded` | internal/applier/broker_applier.go:128-166 | k loops on one topic, at any rates and in any interleaving, each copy a record at most once and never anyone's copy, and the log is at most k+1 times what everyone else produced |
| `SharedTopic.LoopStepKeeps` | internal/applier/broker_applier.go:214-244 | a step of one loop keeps the invariant of every loop |
| `CoDrivers.Preserved` | internal/run/drive.go:384-458 | every step of start, stop and collect keeps the invariant tying starts, handles and stops together |
| `CoDrivers.AtMostOnce` | internal/run/drive.go:384-449 | in every interleaving each Start is called at most once, each Stop at most once and only on a returned handle |
| `CoDrivers.StoppedIffStoredBeforeStop` | internal/run/drive.go:428-436 | a returned handle is stopped in the end if and only if it was stored before the first stop read the handles |
| `CoDrivers.StopCanMissARunningTool` | internal/run/drive.go:401-404 | a run in which pgbench's handle is returned and never stopped |
| `CoDrivers.ReturnsAreKept` | internal/run/drive.go:401-420 | in every reachable state a tool's handle and error are what its own Start step of the run returned, or none if there was no such step |
| `CoDrivers.OrderedStopIsComplete` | internal/run/drive.go:425-458 | in a run where start returned before stop began, every handle a Start returned is stopped exactly once, and every collect reports the handle and error each Start returned |
| `CoDrivers.TeePreserved` | internal/run/drive.go:472-483 | each receive, forward, delivery and close keeps delivered, buffered, held and pending markers equal to the input |
| `CoDrivers.TeeIsTransparent` | internal/run/drive.go:472-483 | the tee outputs its input in order with at most 8 buffered, and fires onFirst exactly once if and only if a marker came |
| `Recorder.Serve` | internal/capture/recorder.go:63-182 | exchanges played on one Recorder in any order leave exactly the book of that run: its lines order as the clock did, go up in number, and are Count in all |
| `Recorder.StartIsTheArrival` | internal/capture/recorder.go:100-102 | an exchange starts at the clock's reading when its request arrives, in any interleaving |
| `Recorder.EndIsTheReturn` | internal/capture/recorder.go:143-145 | an exchange ends at the clock's reading when its response has been written |
| `Recorder.InstantsKeepRealTimeOrder` | internal/capture/recorder.go:100-182 | one line's return precedes another's call in the cassette exactly when the one exchange ended before the other started |
| `Recorder.CassetteIsTheClock` | internal/capture/recorder.go:100-145 | a line's return precedes another's call exactly when less of the clock had run at that response than at that arrival, and a line lasts as long as its exchange did |
| `Recorder.LinesAreNumberedUpwards` | internal/capture/recorder.go:161-182 | numbers strictly increase, no exchange is written twice, and Count is the number of successful writes |
| `Recorder.HistoryIffStartedAfterEpoch` | internal/capture/cassette.go:56-60 | a line reads as having a history exactly when its exchange started at or after the epoch and took measurable time |
| `Recorder.EarlierReaderCanLoseItsHistory` | internal/capture/recorder.go:100-102 | two requests racing for the epoch can leave the earlier one's line at instant 0, without a history |
| `ErrorRate.ApproximationIsNearest` | internal/applier/mock_applier.go:69-81 | for a rate in 0..1 the error count is in 0..20, the applied rate is within 1/40 of the request and the nearest such multiple, and is reported as approximated exactly when it differs |
| `ErrorRate.StateNamesDistinct` | internal/applier/mock_applier.go:52-62 | no two states of one fault's cycle share a name, whatever the fault is called |
| `ErrorRate.ScenarioIsTheFaults` | internal/applier/mock_applier.go:52-112 | two stubs share a scenario exactly when they are of one fault |
| `ErrorRate.ErrorRateMappings` | internal/applier/mock_applier.go:89-112 | the stubs built are the 20-state cycle for the approximated rate |
| `ErrorRate.CycleIsHeld` | internal/applier/mock_applier.go:89-112 | under the ids handed out the server holds the fault's 20 stubs, each with its own state, successor and answer, the failures first, and every earlier stub as it was |
| `ErrorRate.OneStubEnabled` | internal/applier/mock_applier.go:89-112 | after any number of requests exactly one stub is enabled, the next in turn |
| `ErrorRate.CycleKeepsTheProportion` | internal/applier/mock_applier.go:83-112 | after n requests 0 <= 20*failures - n*errorCount <= errorCount*(20-errorCount), any 20 in a row hold exactly errorCount failures, and a caller sees them as the fault's status unless that is 200 |
| `ErrorRate.AppliedIsTheDensity` | internal/applier/mock_applier.go:156-181 | the applied rate reported is the density of failures in any 20 consecutive requests |
| `ErrorRate.ApplyErrorRate` | internal/applier/mock_applier.go:179-225 | success registers exactly the cycle, stub by stub under the returned ids in order, and reports the nearest rate; failure at any position leaves the earlier stubs, those whose rollback delete was refused, and what the failing create made |
| `ErrorRate.RollbackClears` | internal/applier/mock_applier.go:186-190 | the stub set is as before exactly when the failing create left no stub and every rollback delete was accepted |
| `ErrorRate.WireMock.DeleteAll` | internal/applier/mock_applier.go:212-223 | every id is deleted even past failures, and success means all were accepted |
| `ErrorRate.UndoRemovesExactlyItsStubs` | internal/applier/mock_applier.go:171-178 | deleting the returned ids leaves exactly the stubs that were there before and those others added since |
| `Pacer.BuildSteps` | internal/emit/loadgen.go:85-117 | each step has its own stage's rate, length and kind; a hold is flat, the first ramp starts from 0 and any later one where the step before it ended; given exactly when all rates and durations parse |
| `Pacer.StepsAreTheStages` | internal/k6/k6.go:105-118 | both engines' steps are their stages' own, and every k6 step begins where the one before it ended, the first at 0 |
| `Pacer.EnginesAgreeIffHoldsDoNotJump` | internal/k6/k6.go:105-118 | k6 and Locust drive the same rate at every instant exactly when every hold of positive length keeps the rate in force |
| `Pacer.EnginesDifferByHoldJumps` | internal/k6/k6.go:105-118 | over the whole profile the two loads differ by half of every hold's jump times its length |
| `Pacer.FirstHoldIsRamped` | internal/k6/k6.go:105-118 | a first hold of 100 rps for 10 s: Locust drives 100 rps at once, k6 none, and 500 requests fewer in all |
| `Pacer.RateWhileRunning` | internal/emit/loadgen.go:454-462 | rate_at has a non-negative value exactly until the profile ends |
| `Pacer.Pace` | internal/emit/loadgen.go:492-511 | the pacer terminates, ticks exactly until the end of the run, and after every tick has dispatched the floor of the summed rate*TICK |
| `Pacer.WholeRow` | internal/emit/loadgen.go:402-420 | a stage of whole ticks offers its exact area less half a tick of its change of rate |
| `Pacer.OfferedNearArea` | internal/emit/loadgen.go:402-462 | over stages ending on ticks the offered sum is within (TICK/2) times the summed rate changes of the area |
| `Pacer.ArrivalsNearArea` | internal/emit/loadgen.go:492-511 | over stages ending on ticks, total arrivals differ from the area under the stages by less than one plus that bound |
| `Pacer.EveryTickIsNear` | internal/emit/loadgen.go:454-502 | holding the rate of one instant until another errs by at most the time between them times all the rate moves meanwhile, wherever stages end |
| `Pacer.ArrivalsNearAreaAnywhere` | internal/emit/loadgen.go:492-511 | over any profile, wherever its stages end, total arrivals differ from the area by less than one plus TICK times everything the rate moves, jumps and the final drop included |
| `PhaseClock.CheckStages` | internal/config/config.go:268-278 | a profile is accepted exactly when phases are distinct and each stage has one of to: and hold: |
| `PhaseClock.OffsetIsMarkerIff` | internal/emit/observability.go:643-659 | the offset equals k6's marker at every stage exactly when each stage lasts as many nanoseconds for k6 as whole seconds for the emitters |
| `PhaseClock.DriveSumIsProfileIff` | internal/run/drive.go:135-145 | the sum behind the bound follows k6's clock at every stage exactly when each stage has the same duration for both |
| `PhaseClock.LastsAlikeIff` | internal/emit/observability.go:603-622 | a stage read as one duration, however written, lasts alike exactly unless it is in milliseconds and not whole seconds |
| `PhaseClock.UnitsAgree` | internal/emit/observability.go:603-622 | k6 and the emitters read 1000 ms as 1 s, 60 s as 1 m and 60 m as 1 h; milliseconds are exact for k6 and cut to whole seconds by the emitters |
| `PhaseClock.ResolveStages` | internal/k6/k6.go:142-166 | the first phase starts the run, each other exactly when the one before it has lasted its own duration, and the run ends with the last; given exactly when all durations parse |
| `PhaseClock.ObsPhaseOffset` | internal/emit/observability.go:630-659 | an offset is given for a declared phase behind readable stages only, and is their whole seconds plus the declared extra |
| `PhaseClock.OffsetTracksMarker` | internal/emit/observability.go:603-659 | where both read the same durations, however written, the offset never passes the marker and lags it by less than one second per earlier millisecond stage, by nothing if there is none |
| `PhaseClock.OffsetCanPassMarker` | internal/emit/observability.go:648-651 | an accepted profile that also sets the unused duration puts the offset 50 s past the marker |
| `PhaseClock.DriveDuration` | internal/run/drive.go:135-150 | the co-driven tools' bound is exactly 30 s past the last stage's end, and the 10 s floor decides only below it |
| `PhaseClock.DriveSumIsTheProfile` | internal/run/drive.go:131-145 | over stages with only the duration they use, the bound's sum is k6's own clock |
| `PhaseClock.BoundCanPassProfile` | internal/run/drive.go:135-145 | accepted stages that also set the unused duration: a hold on which the bound runs 55 s past k6's clock, and a ramp on which the emitters do by 50 s and the bound does not |
| `Weights.PickK6` | internal/k6/k6.go:235-243 | the first scenario whose weights so far exceed the draw, or the last line's scenario when none does |
| `Weights.FallbackIff` | internal/k6/k6.go:237-242 | for any integer weights a draw is picked by weight exactly when some running total exceeds it |
| `Weights.NeverFallsBackIff` | internal/k6/k6.go:237-242 | no draw reaches the last line exactly when some running total is positive |
| `Weights.EachScenarioGetsItsWeightIff` | internal/k6/k6.go:232-243 | exactly weight_i of the integer draws below the total choose every scenario i, if and only if no weight is negative |
| `Weights.PickLocust` | internal/emit/loadgen.go:478-488 | the scenario whose closed stretch of draws holds this one, by the weights the table writes |
| `Weights.PicksAreUnique` | internal/emit/loadgen.go:482-488 | a draw belongs to at most one scenario on either engine |
| `Weights.PickersAgreeIff` | internal/emit/loadgen.go:478-488 | with positive weights both engines choose the same scenario exactly when the draw is not a boundary between two |
| `Weights.K6ShareIsItsStretch` | internal/k6/k6.go:235-243 | for any integer weights the draws that make k6 run a scenario, by weight or by the last line, are one stretch of this length |
| `Weights.LocustShareIsItsStretch` | internal/emit/loadgen.go:478-488 | the draws that make Locust run a scenario are one stretch of this length |
| `Weights.ShareIsUnique` | internal/k6/k6.go:237 | a scenario has at most one share of the draws |
| `Weights.SharesAgreeIff` | internal/emit/loadgen.go:429-433 | for any integer weights both engines give every scenario the same share exactly when there is at most one scenario, every weight is positive, or the first and last weights mirror each other below zero |
| `Weights.OmittedWeightsAreReadTwoWays` | internal/k6/k6.go:235-243 | two scenarios without weights: k6 runs only the second, Locust both alike |
| `Percentile.Percentile` | internal/capture/replay.go:101-117 | 0 for no samples, else, for p in (0, 1], a sample with at least p*n samples at or below it and fewer than p*n strictly below |
| `Percentile.RankIsRight` | internal/capture/replay.go:109-116 | the index rule picks a p-th percentile for every p in (0, 1] |
| `Percentile.OrderAndShareDoNotMatter` | internal/capture/replay.go:101-117 | a rearranged sample gives the same percentile, and a smaller share never a larger one |
| `Percentile.ComputeStats` | benchmarks/b2/result.go:24-54 | the benchmark's percentiles are replay's own rule with P50 <= P95 <= P99, its rate times the wall time is the count, its mean is the sum over the count, and no latencies give zeros |
| `Percentile.SumIsAdditive` | benchmarks/b2/result.go:31-34 | the sum of two runs of latencies is the sum of their sums, and of one latency that latency |
| `Percentile.SumIsBetween` | benchmarks/b2/result.go:31-34 | latencies within bounds have a sum within the count times those bounds |
| `Percentile.Replay` | internal/capture/replay.go:38-73 | Sent = Success + Failed = entries * max(repeat, 1), or the entries before the first undecodable one |
| `Routing.ParseFault` | internal/config/config.go:321-387 | a fault is accepted exactly when legal: one verb, only its own modifiers, values in range, whatever the map order |
| `Routing.FindVerb` | internal/config/config.go:338-359 | the two loops over the map find the one verb that owns all other keys, or there is none |
| `Routing.VerbIsUnique` | internal/config/config.go:338-350 | no fault is legal under two verbs |
| `Routing.FractionCheckMissesOnlyNaN` | internal/config/config.go:118-126 | the parser's range check and both owners' re-checks accept the same values: numbers from 0 to 1, and .nan |
| `Routing.WorkersChecksAgree` | internal/fault/translate.go:193-222 | the parser and the translator accept the same workers: integers from 1 on, and whole floats from 1 on within the integer range |
| `Routing.AcceptedFaultsAreTranslated` | internal/fault/translate.go:138-191 | an accepted fault is refused exactly for a latency, jitter, bandwidth or cpu value its grammar does not read; else it becomes one toxic, one docker action, or is passed to its owner |
| `Routing.DeclaredValuesArrive` | internal/fault/translate.go:290-418 | every attribute of the toxic and every argument of the docker action holds the value declared for it under its own name, in its own unit |
| `Routing.OwnersAcceptWhatIsPassed` | internal/queuefault/translate.go:86-134 | the queue layer accepts all it is passed; the mock layer exactly when status is absent or a number |
| `Routing.OwnersGetTheValues` | internal/queuefault/translate.go:101-128 | the owners get the declared count, proportion and status cut to whole numbers, 1 message and status 500 where none is declared, and a queue fault its own topic |
| `Routing.TextStatusIsRefusedByItsOwner` | internal/applier/errorrate.go:51-58 | an accepted error_rate with a text status is passed over and then refused |
| `Routing.ActionsKeepTheirVerb` | internal/fault/translate.go:371-418 | no two verbs end in the same action, and kill, graceful and pause keep their own signals |
| `Routing.SpellingsAgree` | internal/fault/translate.go:223-288 | the same duration, bandwidth or percentage in any of its units gives the same figure |
| `Routing.MillisAreRead` | internal/fault/translate.go:208-257 | a duration is read exactly when it is a number or a number with ms, s or nothing behind it, as the nearest whole count of milliseconds |
| `Routing.RatesAreRead` | internal/fault/translate.go:259-288 | a bandwidth is read exactly when it is a number or a number with kbps or mbps behind it, as the nearest whole count of kilobytes a second, an eighth of the kilobits |
| `Routing.PercentsAreRead` | internal/fault/translate.go:342-369 | a percentage is read exactly when it is a number, bare or with % behind it, from 0 to 100, or is .nan, and as the nearest whole number |
| `Routing.PercentIsInRange` | internal/fault/translate.go:342-369 | a cpu percentage that is read lies in 0..100 exactly when it is not .nan |
| `Routing.BandwidthSurvivesRounding` | internal/emit/netem.go:95-98 | a bandwidth of N kbps or mbps leaves netem, pumba and Chaos Mesh as one figure within 4 kbit of N or 1000*N |
| `Routing.ChaosMeshAsksForEightTimes` | internal/emit/platform.go:357-373 | by tc's units Chaos Mesh's text asks for eight times the throughput of netem's and pumba's |
| `Routing.EmittersAgreeIff` | internal/emit/platform.go:357-373 | the three ask for one throughput exactly when Chaos Mesh's kbps is read as a thousand bits, or the rate is zero |
| `Routing.WorkersShareTheLoad` | internal/run/docker_applier.go:175-187 | w workers told their share of p percent request within (w+1)/2 points of p in all |
| `Coverage.EvalPredicate` | internal/doctor/registry.go:150-168 | the loop's verdict is that of the alternatives in order |
| `Coverage.PredicateInTurn` | internal/doctor/registry.go:150-168 | one term decides alone; behind a first term the rest decide exactly when it is known and false |
| `Coverage.NamedTerms` | internal/doctor/registry.go:170-196 | each term of the table asks its own fact, matched exactly when it is true and unevaluated exactly when it is unknown |
| `Coverage.OpenTerms` | internal/doctor/registry.go:199-226 | dep: asks whether a dependency of that type was found, lang: whether it is the language, and any other namespace is never evaluated |
| `Coverage.SplitJoins` | internal/doctor/registry.go:158 | splitting at the separator gives separator-free terms that join back to the predicate |
| `Coverage.CutJoins` | internal/doctor/registry.go:205-208 | a term is cut at its first colon, if it has one, and at nothing else |
| `Coverage.EvaluatedIsFinal` | internal/doctor/registry.go:140-168 | an evaluated predicate never changes when unknown facts are settled later, either way |
| `Coverage.SoundForKleene` | internal/doctor/registry.go:158-167 | matched implies evaluated; an answer is the three-valued OR; and there is one exactly when no term is unknown or a true one comes first |
| `Coverage.LeadingUnknownHidesAMatch` | internal/doctor/registry.go:158-167 | two orders of the same alternatives, one matched and one unevaluated |
| `Coverage.Detection.ApplyManifestFacts` | internal/detect/lockfile.go:398-419 | the evidence recorded is exactly that of the manifests read so far, each by its own language's tables |
| `Clients.Inventory.MatchManifest` | internal/detect/lockfile.go:407-408 | each type's clients after a manifest are those before it and then exactly its matching imports, in order, if the type is kept at all |
| `Clients.HitsAreTheMatches` | internal/detect/lockfile.go:585-600 | the hits are exactly the pairs of an import and a table row with a prefix of it, each once, imports in order and rows in order within one |
| `Clients.ClientsAreTheHits` | internal/detect/lockfile.go:585-619 | the same for any sequence of matches; a type is there afterwards exactly if it was before or is one that only a manifest shows and was hit |
| `Clients.NothingIsFabricated` | internal/detect/lockfile.go:601-618 | no dependency is manufactured of a type that an image should have shown |
| `Coverage.DetectManifestFacts` | internal/detect/compose.go:242-256 | the settled facts: presence by one manifest's imports, absence by all read, a collector settling otel |
| `Coverage.ManifestOrderDoesNotMatter` | internal/detect/lockfile.go:384-440 | the facts do not depend on the order or repetition of manifests |
| `Coverage.AbsenceNeedsEveryManifest` | internal/detect/lockfile.go:421-440 | absence is claimed exactly when every manifest was read and none shows it, presence exactly when one read shows it (or, for otel, a collector runs), and presence is never retracted |
| `Coverage.TablesAreByLanguage` | internal/detect/lockfile.go:138-163 | packages of each table are found under their own language and their own provider and not under another |
| `Thresholds.SplitThresholdExpr` | internal/k6/summary.go:51-76 | the split is at the leftmost operator, the two-character one where one starts there, with both sides trimmed and the limit parsed |
| `Thresholds.CutIsUnique` | internal/k6/summary.go:51-65 | an expression has at most one such cut |
| `Thresholds.TrimSpaceTrims` | internal/k6/summary.go:60-66 | trimming leaves the stretch between the outer white space, with none at either end |
| `Thresholds.SplitsWhatWasPrinted` | internal/k6/summary.go:55-76 | split(stat + op + limit) gives the trimmed statistic, the operator and the limit for any parts free of operator characters and all six operators |
| `Thresholds.ComparisonTable` | internal/k6/summary.go:103-120 | which operators hold below, at and above the limit |
| `Thresholds.EvaluateThreshold` | internal/k6/summary.go:147-161 | true exactly when the expression splits, the statistic is found and the comparison holds |
| `Thresholds.LookupReads` | internal/k6/summary.go:78-98 | a statistic is read from the metric itself, else from its nested values, else rate from value, and is there exactly when that entry is a number |
| `Thresholds.PrintedThresholdHolds` | internal/k6/summary.go:51-161 | a printed threshold on a measured statistic holds exactly when its operator is one of the three that hold below, at or above the limit |
| `Thresholds.ThresholdsAreNotStatistics` | internal/k6/summary.go:78-98 | rewriting a metric's thresholds changes no evaluation on it |
| `Thresholds.RecomputeMetric` | internal/k6/summary.go:137-143 | every threshold of a metric becomes its own verdict on the measured values, whatever k6 wrote, and nothing else changes |
| `Thresholds.Summary.RecomputeThresholds` | internal/k6/summary.go:131-145 | every metric that is an object is recomputed so, and every other is left as it is |

## Left out

- Docker, Toxiproxy, WireMock, the broker and HTTP are environment answers passed in as parameters or steps.
- Undo of kill, graceful, pause and stress faults: it depends on Docker and process behaviour the code does not decide.
- Both queue and fault managers are one protocol model; their appliers differ and only the container limits and the duplicate loop are modelled below it.
- Tie rounding of the two-decimal CPU text: which way the float64 quotient of an exact half prints is an input (`halfUp`).
- YAML, JSON, regular-expression, base64 and number parsing: values arrive parsed; `strconv.ParseFloat` is a parameter of `Thresholds`.
- Float rounding and infinities; NaN outside `Routing`; overflow of `int64` and `time.Duration`, except Go's float-to-int conversion in `Routing`.
- Real time, fairness and delivery of signals; the goroutines' own liveness.
- porcupine's search and its 60 s limit: its decided answers are assumed right.
- The other emitters, dashboards, scrubbing, the egress audit, the command line and the coverage report: templates or single passes.
- Contents of stress actions' arguments beyond resource, percentage and copied values; names and error texts throughout.
- Linearizability.Partition: the map of slices is a map of sequences, so sharing of backing arrays between parts is not modelled.
- Redelivery.RateOneCopiesEachOnce: needs every consumed batch to decode and every post to be accepted; the source drops the others silently.
- Pacer.Pace: the spreading of a tick's arrivals and the sleep to the next tick are not modelled.
- Percentile.Replay: the percentiles of the result are those of `Percentile.Percentile` on the latencies returned.
- CoDrivers.Preserved: start, stop and collect are steps of one state machine rather than methods of an object, since what matters is how they interleave.
- Two error_rate faults on one WireMock are not modelled.
- Pacer.ArrivalsNearArea: the sharper bound needs stages that end on ticks; `Pacer.ArrivalsNearAreaAnywhere` has the rest.
- Weights.PickersAgreeIff: weights are positive, as Locust replaces any other; the shares under all integer weights are compared instead. A profile without scenarios gives no pick, which the k6 script does not check for.
- Thresholds.Summary.RecomputeThresholds: a metric is a value in the map; the source rewrites the nested maps in place, which anything else holding them would see.
- TeardownRace.RestoredIff: where a fault sets a limit within an undo's rounding of the original, a limit that merely passes for it counts as restored, so only the one direction holds. One limit is modelled at a time; others do not touch it.
- When a `for:` fault's timer fires and in which order the tracker's teardown runs are left open: any order is a run. Reset between runs is not modelled.
- Scheduler.ScheduleFaults: what an apply does, its panics, and a marker stream that never ends are not modelled.
- Coverage.Detection.ApplyManifestFacts: the same loop's client half is `Clients.Inventory.MatchManifest`; the client tables themselves are inputs.
- PhaseClock.OffsetTracksMarker: durations are single-unit whole numbers where the emitters read them, the only form they read.

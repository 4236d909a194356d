# Capacity Fabric: a verified model

Capacity Fabric answers "does this workload fit, and when?" from evidence that workers
publish. This project models the parts of it that decide the answer and proves what they
promise:

* **Curve and search.** Reservations and releases become signed, time-sorted events; a
  zero-clamped fold of them is indexed and searched (`Capacity.dfy`, `Timeline.dfy`,
  `CurveLaws.dfy`, `WindowLaws.dfy`, `Forecast.dfy`, `ModeLaws.dfy`, `EarliestFit.dfy`).
* **Decision.** The gate chain that says whether a demand fits now, with fragmentation
  (`Fleet.dfy`, `Fragmentation.dfy`, `Feasibility.dfy`, `Decisions.dfy`), and what-if overlays
  (`Scenario.dfy`, `ScenarioLaws.dfy`).
* **Authority.** The model as a state machine (`Authority.dfy`, `StepLaws.dfy`), the view it
  gives (`Views.dfy`), what its answers mean for the state alone (`Answers.dfy`), the
  coordinator that drives it from many connections (`Coordinator.dfy`, `MessageLaws.dfy`), and
  the bytes of those connections (`Wire.dfy`).
* **Codecs.** Little-endian integers, FNV-1a, records, frames and the durable file
  (`Binary.dfy`, `Checksum.dfy`, `Doubles.dfy`, `Payload.dfy`, `PayloadIO.dfy`, `Frames.dfy`,
  `Persistence.dfy`, `PersistenceIO.dfy`, `Restart.dfy`, `Layout.dfy`, `LoadExact.dfy`).

Code that changes things step by step is a class or a method with loops, proved against a
function of its inputs or of the old state; the theorems are about those functions. What such
a function means is told a second time without it: in `ModeLaws.dfy`, `Decisions.dfy`,
`ScenarioLaws.dfy`, `StepLaws.dfy`, `MessageLaws.dfy` and `Layout.dfy`, by the fields of the
records, the view and the state, or by the bytes.
`Counterexamples.dfy` holds inputs on which the code departs from what one would expect.
`Sums.dfy` and `Wrappers.dfy` are support. `dafny verify dfyconfig.toml` checks everything.

Amounts are non-negative reals, time is an integer number of nanoseconds, and a double inside
a codec is the 64-bit word of its bits, so that what the codecs ask of it (finite, negative,
in [0, 1], cut to an integer) is stated exactly. Which keys a capacity stores is kept explicit,
because several operations depend on it.

## Where the code departs from what one would expect

The model keeps the code as it is. Each point is proved: a failing input or family of inputs,
and, where a promised property fails, the condition under which it holds.

1. **Simultaneous events.** `rangeMin` and `rangeMax` also pass the values between events that
   have the same time, values which the curve never shows. They are the pointwise minimum and
   maximum if and only if no such value lies beyond every time of the window
   (`RangeMinFromFirstIff`, `RangeMaxPointwiseIff`, `HandoverNotPointwise`). When one hold ends
   as another starts, `earliestFit` can miss a window that fits throughout
   (`HandoverIsNotFound`); simultaneous events that pull one way only are harmless
   (`OneWayTiesNeverDip`).
2. **Absent dimensions.** `Capacity::min` takes the other side for a key missing on the left, so
   a demanded dimension that is absent at a start is ignored there. `earliestFit` can then
   answer too early (`ArrivalIsTooEarly`), and so can the sampling reference, at a start the
   search does not even try (`ReferenceIsTooEarly`). `SearchExactIff` and `GridAgreesIff` are
   the exact conditions for the search and for its agreement with the reference, `SearchExact`
   and `GridAgrees` what a caller gets from present dimensions.
3. **The horizon.** The earliest start is always a candidate, so when it does not leave room
   for the duration an answer can end after the horizon (`FoundFitsIff`); the sampling reference
   never does that (`GridAgreesIff`).
4. **Overcommitment.** The clamp swallows holds that are not covered, and the optimistic curve
   can then be below the expected one (`OvercommitInvertsModes`). Without overcommitment the
   modes are ordered (`ModesOrdered`); in general the clamp adds back each mode's shortfall, and
   the order is a matter of the shortfalls (`CurveOrderIff`, `SoftGapIff`).
5. **Generations.** `GenerationTracker::advance` accepts an invalid generation over a valid one
   (`TrackerGoesBackIff`); the callers' guards do not, but `load` does not restore the resource
   tracker, so after a restart any generation is accepted (`RestartForgetsGenerations`,
   `PublishLowersIff`).
6. **Refused registrations.** A connection names its worker even when the registration is
   refused, so closing it kills the incarnation another connection holds
   (`RefusedRegistrationStillKills`). A connection that goes over to another worker can leave a
   live one that nobody names (`RenamingBreaksIff`).
7. **Scenarios.** The overlay counts resources that look usable, the live view those whose
   evidence is current, so a scenario can show more than the live view
   (`ScenarioExceedsIff`, `StaleResourceReappearsIff`). `DegradeDevice` breaks composition
   (`DegradeBreaksComposition`, `DegradeComposesIff`).
8. **Drained devices.** Publishing and viewing copy a resource's health to its device but not
   its drain and maintenance flags, so the live view's devices never look drained
   (`LiveDevicesNeverFlagged`) and draining changes no live decision (`FlagsNeverMatter`), while
   a scenario's devices do. `setHealth` shows nowhere either (`SetHealthNeverShows`).
9. **Saturated scans.** The scan of a device's free blocks stops where their sum overflows, so a
   large block after that is not seen (`SaturationHidesBlock`, `FirstFittingBlockIff`).
10. **Very long files.** A saved file of more than 4 GiB wraps its length field, and a cut of it
   can be read as a file (`CutSavedFileIsRead`, `OtherLengthReadIff`); the size limit refuses
   the whole.
11. **Readers that raise.** A change that is not finite, or a confidence outside [0, 1], raises
   in the middle of a load or of a message. The load then keeps what it had already replaced
   (`RaisedLoad`, `RaisingFileHalfLoads`), and the message ends the process; the readers raise
   exactly as `ReservationRoundTrip` and `ReleaseRoundTrip` say.
12. **Replayed boots.** A Register that names a dead boot again makes what was published under
   it current without a publication (`ReviveIff`, `DeadEvidenceNeverCounts`).

## Model

| member | source | states |
|---|---|---|
| Capacities.Capacity.SetAmount | include/capacity_fabric/capacity/capacity.hpp:34-44 | negative amounts are refused and change nothing; a zero erases the key |
| Capacities.Capacity.Add | include/capacity_fabric/capacity/capacity.hpp:48-57 | the entry-by-entry loop is the componentwise sum over the keys of both |
| Capacities.Capacity.SubtractClamp | include/capacity_fabric/capacity/capacity.hpp:60-66 | the entry-by-entry loop is the clamped difference, which stores its zeros |
| Capacities.Capacity.TrySubtract | include/capacity_fabric/capacity/capacity.hpp:70-82 | all or nothing: succeeds exactly when the other amounts are covered, else changes nothing |
| Capacities.SubtractUndoneIff | include/capacity_fabric/capacity/capacity.hpp:48-82 | adding back undoes the exact subtraction always, and the clamped one exactly when nothing was clamped |
| Capacities.Capacity.Apply | include/capacity_fabric/timeline/timeline.hpp:37-44 | a signed change applied entry by entry is the clamped, zero-erasing change of all its dimensions |
| Capacities.ApplyDeltaAt | include/capacity_fabric/timeline/timeline.hpp:37-44 | every dimension moves by the change and never below zero |
| Capacities.MinIsPointwiseIff | include/capacity_fabric/capacity/capacity.hpp:106-116 | `min` is the pointwise minimum in a dimension exactly when it is present on the left or zero on the right |
| Capacities.MaxAt | include/capacity_fabric/capacity/capacity.hpp:119-129 | `maxCap` is the pointwise maximum with no such condition |
| Timelines.Timeline.AddReservation | include/capacity_fabric/timeline/timeline.hpp:103-109 | a hold becomes a drop at its start and the same rise at its end |
| Timelines.Timeline.AddMaintenance | include/capacity_fabric/timeline/timeline.hpp:117-121 | a maintenance window becomes a drop and the same rise |
| Timelines.SortByTime | include/capacity_fabric/timeline/timeline.hpp:124-127 | sorted by time and a permutation; the order of ties is left open |
| Timelines.Timeline.Freeze | include/capacity_fabric/timeline/timeline.hpp:124-139 | afterwards the index is exactly the times and the value after each number of events, and no event is lost |
| Timelines.Timeline.CapacityAt | include/capacity_fabric/timeline/timeline.hpp:142-145 | the indexed answer is the plain replay of the events at or before the time |
| Timelines.UpperBound | include/capacity_fabric/timeline/timeline.hpp:191-195 | the split between times at or before t and times after it |
| Timelines.Timeline.FirstEventIndexAfter | include/capacity_fabric/timeline/timeline.hpp:186-190 | the number of events at or before t |
| Timelines.Timeline.RangeMin | include/capacity_fabric/timeline/timeline.hpp:151-165 | the walk folds exactly the values of the steps from the start to the last event before the end |
| Timelines.Timeline.RangeMax | include/capacity_fabric/timeline/timeline.hpp:168-181 | the same for the maximum |
| Timelines.FoldMinMeaning | include/capacity_fabric/timeline/timeline.hpp:151-165 | in each dimension the walk gives the least amount from the first step that holds the dimension on, and nothing if no step does |
| Timelines.FoldMaxMeaning | include/capacity_fabric/timeline/timeline.hpp:168-181 | in each dimension the walk gives the greatest amount of all steps, absent counting as zero |
| Timelines.StepsAreReplays | include/capacity_fabric/timeline/timeline.hpp:124-139 | the running value of the index after i events is the replay of the first i |
| Timelines.CurveIsStep | include/capacity_fabric/timeline/timeline.hpp:142-145 | on a sorted timeline the replay at t is one of the indexed values |
| Timelines.WindowShowsSteps | include/capacity_fabric/timeline/timeline.hpp:151-181 | every time of a window shows a step its walk passes |
| Timelines.StepIsShown | include/capacity_fabric/timeline/timeline.hpp:151-181 | every step passed is shown at some time of the window unless it lies between simultaneous events |
| WindowLaws.WalkBoundsTimes | include/capacity_fabric/timeline/timeline.hpp:151-181 | rangeMin is below every time of the window where the dimension is present at the start; rangeMax is above every time always |
| WindowLaws.RangeMinPointwiseIff | include/capacity_fabric/timeline/timeline.hpp:151-165 | for a dimension present at the start rangeMin is attained at a time of the window, hence the pointwise minimum, if and only if no value between simultaneous events lies below every time |
| WindowLaws.RangeMinFromFirstIff | include/capacity_fabric/timeline/timeline.hpp:151-165 | whether or not the dimension is present at the start, rangeMin bounds the times from the first step that holds it on, and is their minimum if and only if no later value between simultaneous events lies below all of them |
| WindowLaws.SinceIsFirstTime | include/capacity_fabric/timeline/timeline.hpp:151-165 | where that step is shown, those are the times from the first one that holds the dimension on |
| WindowLaws.RangeMinOfNothing | include/capacity_fabric/timeline/timeline.hpp:151-165 | a dimension no step holds is reported as zero and is zero at every time |
| WindowLaws.RangeMaxPointwiseIff | include/capacity_fabric/timeline/timeline.hpp:168-181 | the same for rangeMax, for every dimension |
| WindowLaws.DistinctTimesPointwise | include/capacity_fabric/timeline/timeline.hpp:151-181 | with no simultaneous events inside the window both are pointwise |
| CurveLaws.ReplayIsLevel | include/capacity_fabric/timeline/timeline.hpp:124-145 | the dimensions of a replay are independent clamped sums |
| CurveLaws.LevelClosedForm | include/capacity_fabric/timeline/timeline.hpp:37-44 | a clamped running sum is the greatest of the plain sum and of every later part of it |
| CurveLaws.CurveClosedForm | include/capacity_fabric/timeline/timeline.hpp:124-145 | closed form of the curve in every dimension at every time; in particular never below the unclamped sum |
| CurveLaws.ShortfallIsDeepest | include/capacity_fabric/timeline/timeline.hpp:37-44 | the shortfall is how far below zero the unclamped sum goes at its deepest prefix |
| CurveLaws.LevelIsSumPlusShortfall | include/capacity_fabric/timeline/timeline.hpp:37-44 | the clamp adds back exactly the deepest shortfall so far |
| CurveLaws.CurveUnclampedIff | include/capacity_fabric/timeline/timeline.hpp:124-145 | the curve is the plain sum of the changes so far if and only if no prefix goes below zero |
| CurveLaws.ReorderingHarmless | include/capacity_fabric/timeline/timeline.hpp:124-127 | any two orders of the same events give the same value where no prefix goes below zero in either |
| CurveLaws.WorstCaseSafe | include/capacity_fabric/timeline/timeline.hpp:124-145 | if the worst partial sum at every time is not negative the clamp never acts, for any order of ties |
| Forecasts.BuildTimeline | include/capacity_fabric/forecast/forecast.hpp:61-78 | the result is frozen and holds exactly the events the mode counts, in some time order; `ReleasesCredited` and `ModeShows` tell what each mode credits and counts |
| ModeLaws.ReleasesCredited | include/capacity_fabric/forecast/forecast.hpp:38-78 | with no holds, a mode shows at every time the base and the releases whose bound has passed: the latest bound for guaranteed and conservative, the earliest for optimistic, the expected time for every other mode number |
| ModeLaws.ModeShows | include/capacity_fabric/forecast/forecast.hpp:38-78 | with holds and without overcommitment, less the holds active at that time: the hard ones if guaranteed, all of them otherwise |
| ModeLaws.ModeShowsWithShortfall | include/capacity_fabric/forecast/forecast.hpp:38-78 | overcommitted or not, the same plus the deepest shortfall so far |
| Forecasts.CurveIsIntervalView | include/capacity_fabric/timeline/timeline.hpp:103-145 | without overcommitment, for every tie order, the curve is base plus releases credited less the holds whose half-open interval contains the time |
| Forecasts.CurveIsIntervalViewIff | include/capacity_fabric/timeline/timeline.hpp:103-145 | in general that holds if and only if the replay never goes below zero on the way, and the curve is never below the interval view |
| Forecasts.NoOvercommitCarries | include/capacity_fabric/forecast/forecast.hpp:38-78 | no overcommitment in one mode carries over to every more generous one |
| Forecasts.ModesOrdered | include/capacity_fabric/forecast/forecast.hpp:38-78 | conservative <= expected <= optimistic in every dimension at every time, and guaranteed exceeds conservative by exactly the active soft holds |
| Forecasts.CurveIsViewPlusShortfall | include/capacity_fabric/timeline/timeline.hpp:103-145 | overcommitted or not, a mode's curve is its interval view plus its deepest shortfall so far |
| Forecasts.GenerousCurveIsHigher | include/capacity_fabric/forecast/forecast.hpp:38-78 | for any two modes, the more generous one shows at least as much at a time as soon as the other's own replay up to it never goes below zero |
| Forecasts.CurveOrderIff | include/capacity_fabric/forecast/forecast.hpp:38-78 | for any two modes and any evidence, the order holds at a time if and only if the difference of the shortfalls is within the difference of the interval views |
| Forecasts.SoftGapIff | include/capacity_fabric/forecast/forecast.hpp:38-78 | guaranteed exceeds conservative by exactly the active soft holds if and only if the two fall equally short |
| Forecasts.CurveAtZero | include/capacity_fabric/forecast/forecast.hpp:61-78 | before any release, the curve at time zero is what the active holds leave, clamped once |
| EarliestFits.CandidateStarts | include/capacity_fabric/query/earliest_fit.hpp:28-41 | strictly increasing, and exactly the earliest start and the boundaries in range |
| EarliestFits.EarliestFit | include/capacity_fabric/query/earliest_fit.hpp:46-67 | answers the first candidate whose walked minimum meets the demand, or not-found when none does |
| EarliestFits.SlowReferenceEarliestFit | include/capacity_fabric/query/earliest_fit.hpp:72-104 | answers the first accepted sample of the grid, or not-found when none is |
| EarliestFits.FullWalk | include/capacity_fabric/query/earliest_fit.hpp:81-93 | the reference's scan of all events computes the same window minimum as the indexed walk |
| EarliestFits.AcceptedFitsIff | include/capacity_fabric/query/earliest_fit.hpp:53-65 | an accepted start really fits at every time of its window if and only if every demanded dimension is present there |
| EarliestFits.FittingAcceptedIff | include/capacity_fabric/query/earliest_fit.hpp:53-65 | a start that fits throughout is accepted if and only if no value between simultaneous events falls short |
| EarliestFits.AcceptsIff | include/capacity_fabric/query/earliest_fit.hpp:53-65 | what is tested at a start: every demanded dimension turns up in the window's walk, and from then on there is always enough of it |
| EarliestFits.TrueStartIsCandidate | include/capacity_fabric/query/earliest_fit.hpp:24-41 | the least fitting start among all times is the earliest start or an event boundary |
| EarliestFits.NeverLater | include/capacity_fabric/query/earliest_fit.hpp:46-67 | the search is never later than the least fitting start among all times, unless a hidden value falls short there |
| EarliestFits.SearchExactIff | include/capacity_fabric/query/earliest_fit.hpp:46-67 | the search is exact (least start over all times, or truly none) if and only if, among the candidates up to the first that fits, none is accepted with a demanded dimension absent and the first that fits hides no value below the demand |
| EarliestFits.PresentSearchExactIff | include/capacity_fabric/query/earliest_fit.hpp:46-67 | with every demanded dimension present at every candidate, it is exact if and only if the true start hides no value below the demand |
| EarliestFits.SearchExact | include/capacity_fabric/query/earliest_fit.hpp:46-67 | with every demanded dimension present at every candidate and no simultaneous events that pull one both ways, it is exact |
| EarliestFits.OneWayTiesNeverDip | include/capacity_fabric/query/earliest_fit.hpp:46-67 | simultaneous events that change each demanded dimension in one direction only hide nothing below a window that fits |
| EarliestFits.FoundFitsIff | include/capacity_fabric/query/earliest_fit.hpp:46-67 | a found start fits if and only if the demanded dimensions are present at it; the answer ends by the horizon if and only if the first window does |
| EarliestFits.DistinctTimesNeverDip | include/capacity_fabric/query/earliest_fit.hpp:46-67 | with distinct event times no hidden value exists |
| EarliestFits.GridAgreesIff | include/capacity_fabric/query/earliest_fit.hpp:69-104 | the search equals the step-1 reference if and only if no phantom start off the boundaries precedes every accepted candidate and, when even the first window passes the horizon, that window is not accepted |
| EarliestFits.GridAgrees | include/capacity_fabric/query/earliest_fit.hpp:69-104 | with the demanded dimensions present over the range and the first window within the horizon, the two are equal |
| Counterexamples.HandoverIsNotFound | include/capacity_fabric/timeline/timeline.hpp:151-165 | one hard hold ending as another starts, in the order that lowers first: the earliest start fits at every time and the search finds nothing |
| Counterexamples.HandoverTimelines | include/capacity_fabric/forecast/forecast.hpp:61-78 | both orders of the handover are timelines of the two holds, in every mode |
| Counterexamples.HandoverNotPointwise | include/capacity_fabric/timeline/timeline.hpp:151-181 | in one order rangeMin, in the other rangeMax, answers what no time of the window shows |
| Counterexamples.ArrivalIsTooEarly | include/capacity_fabric/capacity/capacity.hpp:106-116 | an absent dimension: the search answers a start at which there is nothing |
| Counterexamples.ArrivalTimeline | include/capacity_fabric/forecast/forecast.hpp:61-78 | that query is over the timeline of one release |
| Counterexamples.ReferenceIsTooEarly | include/capacity_fabric/query/earliest_fit.hpp:69-104 | everything held for a while: the search answers the true start, and sampling every tick an earlier start at which there is nothing |
| Counterexamples.OutageTimeline | include/capacity_fabric/forecast/forecast.hpp:61-78 | that query is over the timeline of one hard hold |
| Counterexamples.OvercommitInvertsModes | include/capacity_fabric/forecast/forecast.hpp:38-78 | well-formed, overcommitted evidence whose optimistic curve ends below the expected one |
| Counterexamples.DegradeBreaksComposition | include/capacity_fabric/scenario/scenario.hpp:92-103 | degrading in a later scenario fails a resource that degrading later in the same one does not |
| Fragmentation.AnalyzeDeviceMemory | include/capacity_fabric/fragmentation/fragmentation.hpp:34-75 | the scan with its saturation stop gives the specified report, which the following rows explain |
| Fragmentation.ScanMeaning | include/capacity_fabric/fragmentation/fragmentation.hpp:34-51 | the total is the true sum of the blocks, saturated, and the largest block is the largest of those counted before the sum overflows |
| Fragmentation.ShapeSatisfiableIff | include/capacity_fabric/fragmentation/fragmentation.hpp:53-70 | a shape is satisfiable if and only if a block that is large enough comes before the overflow |
| Fragmentation.FirstFittingBlockIff | include/capacity_fabric/fragmentation/fragmentation.hpp:34-70 | the report is right about a shape that some block can hold if and only if the first such block comes before the running total overflows |
| Fragmentation.SaturationHidesBlock | include/capacity_fabric/fragmentation/fragmentation.hpp:34-51 | a failing input: a huge free block that the saturation stop hides |
| Fragmentation.MemoryConserved | include/capacity_fabric/fragmentation/fragmentation.hpp:53-70 | usable and stranded memory add up to the saturated total |
| Fragmentation.RatioIsStrandedPart | include/capacity_fabric/fragmentation/fragmentation.hpp:68-74 | the ratio is within [0, 1] and is the stranded part of the total wherever something is usable |
| Fragmentation.AnalyzeFragmentation | include/capacity_fabric/fragmentation/fragmentation.hpp:81-147 | the two passes compute the saturating totals, the largest block, the usable devices and their memory, the ratio and both flags |
| Fragmentation.TotalIsSum | include/capacity_fabric/fragmentation/fragmentation.hpp:88-101 | the fleet's total is the true sum, saturated |
| Fragmentation.UsableTotalIsSum | include/capacity_fabric/fragmentation/fragmentation.hpp:99-113 | the fleet's usable memory is the true sum over the usable devices, saturated |
| Fragmentation.LargestIsGreatest | include/capacity_fabric/fragmentation/fragmentation.hpp:114-116 | the fleet's largest block is the greatest of its devices' largest blocks |
| Fragmentation.IndicesAreUsable | include/capacity_fabric/fragmentation/fragmentation.hpp:99-106 | the indices are exactly those of the usable devices, in increasing order |
| Fragmentation.FreeIsPartitioned | include/capacity_fabric/fragmentation/fragmentation.hpp:81-147 | conservation: all free memory is stranded or placeable, also when the sums saturate |
| Fragmentation.RatioMonotone | include/capacity_fabric/fragmentation/fragmentation.hpp:81-147 | the ratio is in [0, 1] and does not grow when the block asked for shrinks |
| Fragmentation.RatioIsShare | include/capacity_fabric/fragmentation/fragmentation.hpp:139-145 | the value of the ratio: the saturated free memory of the devices that cannot place the block over that of all devices |
| Fragmentation.StrandedIsSum | include/capacity_fabric/fragmentation/fragmentation.hpp:124-139 | the stranded memory is the true sum, saturated, over the devices that cannot place the block: without a counted block that is large enough, failed, of unknown health, drained or under maintenance |
| Fragmentation.FlagsAre | include/capacity_fabric/fragmentation/fragmentation.hpp:118-122 | both flags, by the number of devices that can place the block |
| Fragmentation.UsableIsLargest | include/capacity_fabric/fragmentation/fragmentation.hpp:53-70 | what one device gives: its whole sum if no block is needed, else its largest counted block if that is large enough, else nothing |
| Feasibility.DeviceCompatible | include/capacity_fabric/query/feasibility.hpp:21-41 | capability text and allowed classes, with the flag loop |
| Feasibility.EvaluateNow | include/capacity_fabric/query/feasibility.hpp:54-228 | the gate chain with its tallies and loops decides as the specification does, which `DecideIs` and `FitNowIff` tell by the fields of the view and the demand |
| Decisions.FitNowIff | include/capacity_fabric/query/feasibility.hpp:54-228 | a demand fits now if and only if it is valid and the evidence usable; as many devices as it asks for serve it (healthy or degraded, not drained, of its capability and class); enough of them share class and node; one has a counted block that is large enough; in each demanded dimension the demand is within what the active hard holds leave; the stranded share is within its limit; and the obligation is at most a half and leaves something of every stored dimension |
| Decisions.DecideIs | include/capacity_fabric/query/feasibility.hpp:54-228 | every other outcome: the first of these that fails, in the order of the gates, names it, with the least dimension that falls short telling memory, bandwidth and capacity apart |
| Decisions.ServersCount | include/capacity_fabric/query/feasibility.hpp:21-90 | the devices that are counted are exactly the distinct listed devices that serve the demand |
| Decisions.HasGroupIff | include/capacity_fabric/query/feasibility.hpp:95-118 | the group gate passes if and only if, for some serving device, that many serving devices share its class and node |
| Decisions.LabelIff | include/capacity_fabric/query/feasibility.hpp:95-103 | two devices have the same group label if and only if they have the same class and node, whatever characters the class contains |
| Decisions.HasBlockIff | include/capacity_fabric/query/feasibility.hpp:129-144 | the block gate passes if and only if some serving device has a block that is large enough before its sum overflows |
| Decisions.HeadroomIff | include/capacity_fabric/query/feasibility.hpp:200-220 | the headroom gate passes if and only if of every dimension stored in what is available, in an active hard hold or in the demand, something is left |
| Feasibility.FindGroup | include/capacity_fabric/query/feasibility.hpp:95-118 | the map of counts finds a group exactly when some usable device's group is large enough |
| Feasibility.MissingIsLeast | include/capacity_fabric/capacity/capacity.hpp:95-103 | the dimension that classifies a refusal is the least one that falls short |
| Feasibility.CapacityGateIff | include/capacity_fabric/query/feasibility.hpp:146-160 | nothing is missing if and only if in every demanded dimension the demand and all that the active hard holds take are together within what is available, for holds of any sign |
| Feasibility.EffectiveIsSum | include/capacity_fabric/query/feasibility.hpp:146-156 | subtracting the holds one by one clamps once on their sum, in any order |
| Feasibility.EffectiveAt | include/capacity_fabric/query/feasibility.hpp:146-156 | the same for holds of any sign: the clamp acts once on the sum of their sizes |
| Feasibility.PathsAgreeAtZero | include/capacity_fabric/query/feasibility.hpp:146-156 | at time zero, before any release, the effective capacity of the decision equals the guaranteed timeline in every dimension |
| Feasibility.FewerHoldsLeaveMore | include/capacity_fabric/query/feasibility.hpp:146-156 | any subset of the reservations, in any order, leaves at least as much in every dimension |
| Feasibility.FitIsMonotone | include/capacity_fabric/query/feasibility.hpp:54-228 | what fits now still fits with any subset of the reservations in any order, and so does every weaker valid demand, through every gate |
| Scenarios.Overlay.Perform | include/capacity_fabric/scenario/scenario.hpp:54-110 | one action edits the copied view in place as specified, and nothing else; the `ScenarioLaws` rows tell what each action does |
| Scenarios.Overlay.Degrade | include/capacity_fabric/scenario/scenario.hpp:92-103 | the nested loop fails every listed device that any resource is on, whichever resource is named, and those resources |
| Scenarios.ApplyScenario | include/capacity_fabric/scenario/scenario.hpp:52-144 | the actions in order and then a full re-aggregation, which the `ScenarioLaws` rows tell by the fields of the view |
| ScenarioLaws.ScenarioTotals | include/capacity_fabric/scenario/scenario.hpp:112-142 | after any scenario every total is the sum over the resources that are left, the available one over those that look usable |
| ScenarioLaws.ScenarioUse | include/capacity_fabric/scenario/scenario.hpp:112-142 | and what is in use is what the other three leave of the nominal, clamped at each step |
| ScenarioLaws.ScenarioDevices | include/capacity_fabric/scenario/scenario.hpp:112-142 | the devices are those of the resources that are left, one each, flags included |
| ScenarioLaws.CancelErases | include/capacity_fabric/scenario/scenario.hpp:75-79 | cancelling: no reservation of the id is left, and every other one as often as before |
| ScenarioLaws.CancelGivesBack | include/capacity_fabric/scenario/scenario.hpp:75-79 | so the effective capacity is what is available less what the active hard holds of other ids take, clamped once |
| ScenarioLaws.AddReservationAdds | include/capacity_fabric/scenario/scenario.hpp:80-82 | adding a reservation: exactly one more of it |
| ScenarioLaws.AddReservationTakes | include/capacity_fabric/scenario/scenario.hpp:80-82 | so the effective capacity loses its size if it is hard and active, before the clamp |
| ScenarioLaws.RemoveErases | include/capacity_fabric/scenario/scenario.hpp:56-71 | removing: no resource of the id is left, and every other one as often as before |
| ScenarioLaws.AddResourceAdds | include/capacity_fabric/scenario/scenario.hpp:72-74 | adding a resource: it is listed with its device, and the available amount grows by what it has free if it looks usable |
| ScenarioLaws.DelayMoves | include/capacity_fabric/scenario/scenario.hpp:83-91 | delaying moves the three times of each release of the source, and nothing else |
| ScenarioLaws.DelayCreditsLater | include/capacity_fabric/scenario/scenario.hpp:83-91 | so in every mode and dimension that source is credited exactly the delay later, and every other one as before |
| ScenarioLaws.DegradeFails | include/capacity_fabric/scenario/scenario.hpp:92-103 | degrading fails every resource on a listed device, whichever resource is named, and leaves every other one as it is |
| ScenarioLaws.DegradeLeaves | include/capacity_fabric/scenario/scenario.hpp:92-142 | so what is left available is what the usable resources on no listed device have free |
| ScenarioLaws.MoveMaintenanceAppends | include/capacity_fabric/scenario/scenario.hpp:106-108 | a maintenance window is appended without any capacity of its own |
| ScenarioLaws.SetHeadroomChangesNothing | include/capacity_fabric/scenario/scenario.hpp:104-105 | a headroom action changes nothing in the view |
| Scenarios.ScenariosCompose | include/capacity_fabric/scenario/scenario.hpp:52-144 | one scenario after another equals both in one, on the whole view, when the second degrades nothing |
| Scenarios.DegradeComposesIff | include/capacity_fabric/scenario/scenario.hpp:52-144 | a scenario that degrades a device after another equals both in one if and only if every resource it would fail is on a device the view still lists |
| Scenarios.AvailableIsSum | include/capacity_fabric/scenario/scenario.hpp:112-142 | the re-aggregated available amount is the sum of free over the usable resources |
| Scenarios.RemovalNeverIncreases | include/capacity_fabric/scenario/scenario.hpp:56-71 | any list of removals shows at most what the empty scenario shows, in every dimension |
| Authority.GenerationTracker.Advance | include/capacity_fabric/model/freshness.hpp:41-50 | refuses exactly a valid regression and then changes nothing |
| Authority.TrackerGoesBackIff | include/capacity_fabric/model/freshness.hpp:41-50 | the tracker alone goes back if and only if an invalid generation is given for an object that has a valid one |
| Authority.CapacityModel.RegisterWorker | src/model/model.cpp:24-35 | is the Register step: a second boot of a live worker is refused |
| Authority.CapacityModel.UnregisterWorker | src/model/model.cpp:37-43 | is the Unregister step |
| Authority.CapacityModel.MarkWorkerDead | src/model/model.cpp:45-49 | is the MarkDead step |
| Authority.CapacityModel.Publish | src/model/model.cpp:63-87 | is the PublishResource step: live boot and no regression, and the device registry follows |
| Authority.CapacityModel.AdvanceResourceGeneration | src/model/model.cpp:89-99 | is the AdvanceGeneration step |
| Authority.CapacityModel.PublishReservationView | src/model/model.cpp:101-111 | is the PublishReservation step, replacing by id |
| Authority.CapacityModel.PublishReleaseEvent | src/model/model.cpp:113-120 | is the PublishRelease step, replacing by source |
| Authority.CapacityModel.RecordForecastFor | src/model/model.cpp:468-471 | is the RecordForecast step |
| Authority.CapacityModel.RecordObservedAt | src/model/model.cpp:473-478 | is the RecordObserved step: the first prediction for the time, or none, is completed |
| Authority.CapacityModel.SetDeviceHealth | src/model/model.cpp:140-148 | is the SetHealth step: no regression of the health generation, known devices only |
| Authority.CapacityModel.LoadFile | src/model/model.cpp:356-453 | is the Load step, whether the load succeeds, stops or raises; `LoadLaw`, `RestartRecovers`, `RestartKeepsDurablePart` and `LoadTracksReservations` tell what it does to each part of the state |
| StepLaws.RegisterLaw | src/model/model.cpp:24-35 | accepted if and only if worker and boot are valid and the worker is not alive under another boot; then that boot is live, and nothing else changes |
| StepLaws.DeathLaw | src/model/model.cpp:37-49 | the worker stays registered under its boot, not alive; nothing else changes |
| StepLaws.PublishLaw | src/model/model.cpp:63-87 | accepted if and only if the boot is live and the generation not below a valid tracked one; then record and generation are what is stored, and no other resource or tracker changes |
| StepLaws.PublishRegisters | src/model/model.cpp:63-87 | the device is registered as the resource reports it, without flags and blocks, and no other device changes |
| StepLaws.AdvanceLaw | src/model/model.cpp:89-99 | accepted if and only if the resource is known; the generation goes up by one, from none to 1 and no further than the last |
| StepLaws.ReservationLaw | src/model/model.cpp:101-111 | accepted if and only if the generation is not below a valid tracked one; then it is tracked, and no other tracker moves |
| StepLaws.ReservationReplaces | src/model/model.cpp:101-111 | the reservation is then the only one of its id, and those of other ids stay as often as before |
| StepLaws.ReleaseLaw | src/model/model.cpp:113-120 | the release is then the only one of its source, and those of other sources stay as often as before |
| StepLaws.ForecastLaw | src/model/model.cpp:468-471 | a forecast is appended without an observation |
| StepLaws.ObservationLaw | src/model/model.cpp:473-478 | the first forecast for the time is completed, whatever stood there, and no other |
| StepLaws.HealthLaw | src/model/model.cpp:140-148 | accepted if and only if the generation is not below a valid tracked one; then the health of that device changes, if it is registered, and no other |
| StepLaws.LoadLaw | src/model/model.cpp:356-453 | a load, however it ends, touches neither the registrations, the resource and health trackers nor the registered devices; only a successful one marks the state recovered |
| StepLaws.LoadAcceptedIff | src/model/model.cpp:356-453 | a load succeeds if and only if the bytes are, within the read limit, what a save of some state writes |
| LoadExact.LoadsExactlySaved | src/model/model.cpp:356-453 | the same for the codec: reading accepts exactly the image of writing, whatever the bytes, so no other file is ever loaded in full |
| Authority.LiveBootHeld | src/model/model.cpp:24-49 | in every run a live worker keeps its boot until a death step of that worker, whatever else happens |
| Authority.GenerationsNeverDecrease | src/model/model.cpp:63-111 | in every run without load: stored generations equal tracked ones, reservation ids stay unique, no tracked generation decreases |
| Authority.AdvanceIncreasesIff | src/model/model.cpp:89-99 | accepted exactly for known resources, and strictly increasing exactly when not saturated |
| Authority.PublishLowersIff | src/model/model.cpp:63-87 | an accepted publication lowers a stored generation if and only if the tracker has lost it |
| Authority.RestartForgetsGenerations | src/model/model.cpp:379-401 | no load restores the tracker: an untracked resource is accepted under a live boot at any generation |
| Authority.EvidenceStaysDropped | src/model/model.cpp:379-401 | in every run without an accepted publication no resource regains a boot identity, further loads included |
| Authority.CorruptFileChangesNothing | src/model/model.cpp:356-377 | a saved file with any one byte changed is refused and the state is untouched |
| Authority.OtherLengthChangesNothing | src/model/model.cpp:356-377 | so is any extension, and any truncation of a file below 4 GiB |
| Authority.RestartRecovers | src/model/model.cpp:379-401 | a load gives exactly the saved resources back, with no free capacity, worker or boot |
| Persistence.RaisedLoad | src/model/model.cpp:376-421 | a file whose first reservation has a hold that is not finite raises, after the epoch and the resources were replaced and the reservations dropped |
| Authority.RaisingFileHalfLoads | src/model/model.cpp:376-421 | one such file: the state keeps the new epoch and no resource or reservation |
| Restarts.RestartKeepsDurablePart | src/model/model.cpp:300-453 | saving any state and loading the file into any other gives that one exactly the durable part of the first: epoch, resource identities with whole nominal amounts, reservations and releases with their accelerator changes, and the forecast history in whole accelerators |
| Restarts.DurablePartDecidesFile | src/model/model.cpp:300-354 | states with the same durable part and whole predictions are saved as the same bytes |
| Restarts.SaveAfterRestart | src/model/model.cpp:300-453 | save, load, save: the model writes the same file byte for byte when its predictions were whole |
| Restarts.LoadTracksReservations | src/model/model.cpp:402-421 | a load sets the tracker of each saved reservation to the saved generation, or leaves it where it is already further, and moves no other |
| Restarts.OlderReservationRefused | src/model/model.cpp:101-111 | so after the load, in every later run without a load, a publication of a saved reservation below its saved generation is refused and changes nothing |
| Doubles.ValueHasOneWord | include/capacity_fabric/persistence/binary.hpp:23-64 | but for the two zeros a double's value has one word |
| Doubles.TruncatedIsFloor | src/model/model.cpp:442-449 | cutting the word of a non-negative finite double to a count and making it a double again gives the floor of its value |
| Layout.SignIs | include/capacity_fabric/protocol/payload.hpp:19-39 | the tests of sign and zero on the word are those of the value |
| Layout.UnitIs | include/capacity_fabric/protocol/payload.hpp:139-152 | the range test of a confidence on the word is that of the value |
| Views.BuildView | src/model/model.cpp:150-197 | the loop over the resources and the shared device index compute the specified view |
| Views.AvailableIsCurrentSum | src/model/model.cpp:150-197 | in every state the available amount is the sum of free over exactly the resources whose boot is their worker's live boot |
| Views.AscendingIncreases | src/model/model.cpp:150-178 | the resources are visited in strictly increasing order of their ids, each once |
| Views.AvailableCountsEachOnce | src/model/model.cpp:150-178 | so the available amount is the sum over any list of the current resources that names each once: none is counted twice and the order does not matter |
| Views.StaleEvidenceIsInert | src/model/model.cpp:150-197 | forgetting a resource that is not current changes no available amount |
| Views.ViewTotals | src/model/model.cpp:150-197 | the other totals are the sums over all resources, current or not |
| Views.ViewCarries | src/model/model.cpp:150-197 | what is in use is what they and the available leave of the nominal; the view is marked stale if and only if some evidence is; the records are carried as they are |
| Views.ViewDevices | src/model/model.cpp:150-197 | each device is shown once, in order of the ids, as the last resource on it reports, with the flags of the registry |
| Views.EarlierBootNeverCounts | src/model/model.cpp:24-49 | in every run up to the worker's death nothing published under another boot counts |
| Authority.ReviveIff | src/model/model.cpp:24-49 | after a worker's death its stored records are current again exactly when a Register names their own boot |
| Authority.DeadBootStaysDead | src/model/model.cpp:24-49 | a boot that is not live stays so in every run in which no Register of that very boot is accepted |
| Views.DeadEvidenceNeverCounts | src/model/model.cpp:24-49 | so nothing published under a dead boot counts until such a Register |
| Views.RestartIsConservative | src/model/model.cpp:150-236 | after a successful load, in every run without an accepted publication, nothing is available and no feasibility query of any mode or time says FIT_NOW or FIT_FUTURE |
| Views.QueryFeasibility | src/model/model.cpp:204-236 | the present from the view, the future from a timeline of the mode and only on fresh evidence |
| Views.QueryCapacity | src/model/model.cpp:246-250 | the plain replay, at the time asked, of some timeline of the mode over the live view, which `CapacityIsLeft` tells by the state alone |
| Views.QueryEarliestFit | src/model/model.cpp:238-244 | the search answer on such a timeline |
| Answers.CapacityIsLeft | src/model/model.cpp:246-250 | for every mode and every time, on sound evidence: the capacity query answers the free amounts of the current resources, with what the mode credits by then, less what it counts as held then |
| Answers.FreshIff | src/model/model.cpp:150-197 | evidence is fresh if and only if some resource is current, insufficient if and only if there is no resource, and needs revalidation otherwise |
| Answers.FutureIsLeft | src/model/model.cpp:204-236 | for a later time the feasibility query asks for revalidation while nothing is current; otherwise it says FIT_FUTURE if and only if what is left then covers every demanded dimension, and NO_FIT_CAPACITY if not |
| Answers.CoversIsLeft | src/model/model.cpp:238-244 | the windows of `EarliestFitIsLeast`, told by the same amounts |
| Answers.EarliestFitIsLeast | src/model/model.cpp:238-244 | from the state alone: with sound evidence, something of each demanded dimension left at the boundaries and no tie that pulls both ways, the query answers the least start among all times whose whole window the interval view covers, or truly none |
| Answers.CapacityAtFitIsFloor | include/capacity_fabric/query/earliest_fit.hpp:53-65 | with no tie that pulls both ways, the capacity reported with a fit is, in every demanded dimension present at the start, the greatest amount the curve keeps throughout the window |
| Answers.CapacityAtFitIsLeft | src/model/model.cpp:238-244 | the same from the state alone: the greatest amount that is left throughout the window |
| Answers.DecisionUsesGuaranteed | src/model/model.cpp:204-250 | the effective capacity of the decision is what the guaranteed capacity query answers for time zero, in every dimension |
| Answers.GateIsGuaranteedQuery | src/model/model.cpp:204-250 | the decision misses no capacity if and only if that answer meets the demand |
| Views.EvaluateScenario | src/model/model.cpp:284-296 | the decision on the overlay of the live view |
| Views.NoScenarioFitsAfterRestart | src/model/model.cpp:284-296 | until something is published after a restart no scenario fits, whatever it adds |
| Views.LiveDevicesNeverFlagged | src/model/model.cpp:150-197 | in every run of the model, device registry included, the live view's devices carry no drain or maintenance flag |
| Views.FlagsNeverMatter | src/model/model.cpp:150-202 | in every state every demand is decided as if no resource were drained or under maintenance |
| Views.SetHealthNeverShows | src/model/model.cpp:140-197 | setting the health of a registered device changes no view |
| Views.EmptyScenarioDiffers | include/capacity_fabric/scenario/scenario.hpp:112-142 | the empty scenario exceeds the live view by exactly the stale but usable resources less the current but unusable ones |
| Views.ScenarioExceedsIff | include/capacity_fabric/scenario/scenario.hpp:112-142 | it exceeds it if and only if the stale resources that look usable outweigh the current ones that do not |
| Views.RemovalWithinLiveView | include/capacity_fabric/scenario/scenario.hpp:56-71 | when no stale resource looks usable, removals show at most the live view |
| Views.StaleResourceReappearsIff | include/capacity_fabric/scenario/scenario.hpp:112-142 | when every current resource looks usable, the empty scenario exceeds the live view if and only if some stale resource that looks usable has something free |
| Coordinators.Coordinator.OnMessage | src/coordinator/coordinator.cpp:75-111 | one turn of the message loop is the Receive step over model, running flag and connections |
| Coordinators.Coordinator.Dispatch | src/coordinator/coordinator.cpp:113-150 | reading the payload and calling the model is the effect of the message, including raising |
| Coordinators.Coordinator.OnLost | src/coordinator/coordinator.cpp:81-85 | the end of a connection fences the worker it named last |
| MessageLaws.ResourceMessage | src/coordinator/coordinator.cpp:124-129 | a resource message publishes the written resource field by field, each share as its own, if its amounts are acceptable and its blocks few enough, and does nothing otherwise |
| MessageLaws.ReservationMessage | src/coordinator/coordinator.cpp:130-135 | a reservation message publishes the written interval, strength and accelerators; a bad interval does nothing and a hold that is not finite ends the process |
| MessageLaws.ReleaseMessage | src/coordinator/coordinator.cpp:136-141 | a release message publishes its three times, confidence and accelerators, or ends the process |
| MessageLaws.AdvanceMessage | src/coordinator/coordinator.cpp:142-148 | an advance message advances the resource whose id it carries, if it carries one |
| MessageLaws.OtherMessages | src/coordinator/coordinator.cpp:113-221 | every other message leaves the model alone |
| MessageLaws.RegisterMessage | src/coordinator/coordinator.cpp:93-104 | a Register message makes the worker it names the one of the connection, whether or not the model accepts it |
| MessageLaws.ShutdownMessage | src/coordinator/coordinator.cpp:86-92 | a shutdown message stops the coordinator and closes the connection without fencing its worker |
| MessageLaws.ServedMessage | src/coordinator/coordinator.cpp:75-111 | any other message performs its effect; without a reply the coordinator stops; an abort closes everything |
| MessageLaws.ConnectionEnds | src/coordinator/coordinator.cpp:75-85 | the end of a connection fences the worker it named last, if any; a new one names none |
| Coordinators.StepKeepsNamed | src/coordinator/coordinator.cpp:75-111 | every event keeps "every live worker is named by an open connection", unless a connection goes over to another worker |
| Coordinators.RenamingBreaksIff | src/coordinator/coordinator.cpp:93-104 | going over breaks it if and only if the abandoned worker is live and no other connection names it |
| Coordinators.LiveWorkersNamed | src/coordinator/coordinator.cpp:75-111 | the invariant over every interleaving without such a change |
| Coordinators.RegisteringOnceKeepsNamed | src/coordinator/coordinator.cpp:75-111 | the invariant over every interleaving in which no connection registers twice while it stays open; connection numbers may be used again |
| Coordinators.DeathIsClose | src/coordinator/coordinator.cpp:81-85 | every alive-to-dead step is the close of a connection that names the worker |
| Coordinators.DeathsAreAttributed | src/coordinator/coordinator.cpp:75-111 | in every run a Register of that very connection, open ever since, named the worker |
| Coordinators.RefusedRegistrationStillKills | src/coordinator/coordinator.cpp:93-104 | a refused registration leaves the model alone, names the worker, and its close kills the live incarnation |
| Binary.BinaryWriter.WriteLE | include/capacity_fabric/persistence/binary.hpp:16-21 | the shift loop appends the little-endian bytes |
| Binary.BinaryReader.ReadLE | include/capacity_fabric/persistence/binary.hpp:51-62 | the or-shift loop reads them, or consumes nothing |
| Binary.BinaryReader.ReadBytes | include/capacity_fabric/persistence/binary.hpp:66-73 | a length-prefixed string, and how far a failed read got |
| Binary.LERoundTrip | include/capacity_fabric/persistence/binary.hpp:16-62 | every integer that fits comes back from its bytes |
| Binary.FromLERoundTrip | include/capacity_fabric/persistence/binary.hpp:16-62 | every byte string comes back from its integer |
| Checksum.Fnv1a | include/capacity_fabric/persistence/binary.hpp:89-96 | the hash loop is the fold of the step |
| Checksum.StepInjective | include/capacity_fabric/persistence/binary.hpp:89-96 | a step is injective in the state and in the byte, because the prime has an inverse modulo 2^64 |
| Checksum.FnvInjective | include/capacity_fabric/persistence/binary.hpp:89-96 | the same bytes keep different states apart |
| Checksum.OneByteDetected | include/capacity_fabric/persistence/binary.hpp:89-96 | changing exactly one byte always changes the checksum |
| Layout.ChecksumVectors | include/capacity_fabric/persistence/binary.hpp:89-96 | the published FNV-1a values of the empty string and of "a" |
| Payload.CapacityRoundTrip | include/capacity_fabric/protocol/payload.hpp:19-39 | written and read back without zero entries, stopping at the first extra byte, if every entry is acceptable, and rejected otherwise |
| Payload.ReservationRoundTrip | include/capacity_fabric/protocol/payload.hpp:104-128 | read back up to the other dimensions and the provenance; exactly when it is malformed and when it raises |
| Payload.ReleaseRoundTrip | include/capacity_fabric/protocol/payload.hpp:130-152 | the same for releases |
| Payload.DemandRoundTrip | include/capacity_fabric/protocol/payload.hpp:154-178 | read back up to the unwritten fields and zero requirements, or rejected |
| Payload.ResourceRoundTrip | include/capacity_fabric/protocol/payload.hpp:41-102 | read back up to markers, observation time and zeros if amounts are acceptable and blocks number at most 1000000, and rejected otherwise |
| PayloadIO.WriteCapacity | include/capacity_fabric/protocol/payload.hpp:19-25 | the writer loop appends the encoding |
| PayloadIO.WriteResource | include/capacity_fabric/protocol/payload.hpp:41-63 | the writer appends the encoding |
| PayloadIO.ReadCapacityFrom | include/capacity_fabric/protocol/payload.hpp:27-39 | the reader loop is the specified reading and leaves the reader at its end |
| PayloadIO.ReadResourceFrom | include/capacity_fabric/protocol/payload.hpp:65-102 | the same for resources |
| PayloadIO.ReadReservationFrom | include/capacity_fabric/protocol/payload.hpp:113-128 | the same for reservations |
| PayloadIO.ReadReleaseFrom | include/capacity_fabric/protocol/payload.hpp:139-152 | the same for releases |
| PayloadIO.ReadDemandFrom | include/capacity_fabric/protocol/payload.hpp:163-178 | the same for demands |
| Layout.CapacityLayout | include/capacity_fabric/protocol/payload.hpp:19-25 | the number of entries, then for each stored dimension, in increasing order, its number and its word at its place |
| Layout.CapabilityLayout | include/capacity_fabric/protocol/payload.hpp:51-53 | architecture, class and name, each behind its length |
| Layout.IdentityLayout | include/capacity_fabric/protocol/payload.hpp:41-50 | the offset of each of the nine identity fields |
| Layout.ResourceLayout | include/capacity_fabric/protocol/payload.hpp:41-63 | the order of all parts of a resource, nominal, free, committed and unavailable among them |
| Layout.BlocksLayout | include/capacity_fabric/protocol/payload.hpp:62 | each free block at its place |
| Layout.ReservationLayout | include/capacity_fabric/protocol/payload.hpp:104-111 | the offset of each field of a reservation |
| Layout.ReleaseLayout | include/capacity_fabric/protocol/payload.hpp:130-137 | the offset of each field of a release |
| Layout.DemandLayout | include/capacity_fabric/protocol/payload.hpp:154-161 | where each field of a demand stands, before and behind its requirements |
| Frames.EncodeFrame | src/protocol/protocol.cpp:23-42 | refuses oversized payloads and otherwise appends header, payload and checksum |
| Layout.FrameLayout | src/protocol/protocol.cpp:23-42 | the offset and the value of every field of a frame: magic, version, type, flags, sequence number, length, payload, and the checksum of all before it |
| Frames.DecodeFrame | src/protocol/protocol.cpp:44-83 | the checks in order, with the consumed count |
| Frames.DecodeEncode | src/protocol/protocol.cpp:23-83 | an encoding followed by anything decodes to its message and consumes exactly itself |
| Frames.ProperPrefixTruncated | src/protocol/protocol.cpp:44-83 | a proper prefix of an encoding is only ever Truncated |
| Frames.VerdictStable | src/protocol/protocol.cpp:44-83 | a verdict other than Truncated, and its count, never change when bytes are appended |
| Frames.ReencodeIff | src/protocol/protocol.cpp:23-83 | re-encoding a decoded frame gives the consumed bytes if and only if the flags byte is zero |
| Frames.OneByteCaught | src/protocol/protocol.cpp:44-83 | every changed byte outside the length field is caught, and as what |
| Frames.FrameBuffer.PopFrame | src/protocol/protocol.cpp:89-103 | what a pop returns and leaves behind |
| Frames.StreamInOrder | src/protocol/protocol.cpp:85-103 | for every chunking and interleaving the messages come out in order, none lost or invented, and only Truncated is ever seen |
| Frames.StreamDelivered | src/protocol/protocol.cpp:85-103 | once all bytes are delivered, enough pops yield all messages and leave nothing |
| Wires.TakeFrame | src/protocol/tcp.cpp:179-199 | one turn of the receive loop: a frame is handled, a corrupt one ends the connection, an incomplete one is waited for |
| Wires.BuffersApart | src/protocol/tcp.cpp:179-199 | over every interleaving each connection's buffer is that of its own chunks and takes alone |
| Wires.NetworkRunsCaused | src/coordinator/coordinator.cpp:75-111 | over every interleaving of chunks, takes and other events of all connections, the system runs through exactly the events they cause |
| Wires.ConnectionReceivesInOrder | src/coordinator/coordinator.cpp:75-111 | what the system receives on a connection is the first of the peer's messages, in order, and its buffer never ends the connection |
| Wires.ConnectionReceivesAll | src/coordinator/coordinator.cpp:75-111 | once all bytes have arrived, enough takes drive the system through the receipt of exactly the peer's messages |
| Persistence.UnframeFile | src/model/model.cpp:356-377 | a saved file is accepted, and gives its body back, exactly within the read limit |
| Layout.FileLayout | src/model/model.cpp:337-353 | the offset and the value of every field of a file: magic, version, length, body and the checksum of the body; the body starts with the epoch |
| Layout.DurableLayout | src/model/model.cpp:306-319 | where each field of a durable resource stands, before and behind its capability |
| Layout.ForecastLayout | src/model/model.cpp:332-336 | the offset of each field of a forecast |
| Persistence.OneByteRefused | src/model/model.cpp:356-377 | any one changed byte: nothing is loaded |
| Persistence.OtherLengthRefused | src/model/model.cpp:356-377 | any extension, and any truncation of a file below 4 GiB: nothing is loaded |
| Persistence.OtherLengthReadIff | src/model/model.cpp:356-372 | a cut or extended file is taken for a file if and only if its 32-bit length wrapped round and what is left happens to carry that length and a matching checksum |
| Persistence.CutFileIsRead | src/model/model.cpp:343-372 | a family of such files: the body starts like a sealed body, and a cut of the file is read |
| Persistence.CutSavedFileIsRead | src/model/model.cpp:300-404 | a state whose saved file, cut after 32 bytes, is read: the load takes the epoch over and drops every resource before it fails |
| Persistence.SaveLoad | src/model/model.cpp:300-453 | loading a saved file recovers exactly the durable projection |
| Persistence.SaveAgainIff | src/model/model.cpp:300-354 | saving the recovered state gives the same file byte for byte if and only if no hold is a negative zero and every forecast amount is whole |
| PersistenceIO.SaveFile | src/model/model.cpp:300-354 | the writer loops produce exactly the specified file |
| PersistenceIO.LoadFile | src/model/model.cpp:356-453 | the reader loops load exactly what is specified, section by section, also when they stop or raise half-way |

## Left out

- Sockets, threads, the accept loop's connection cap, file I/O and the process entry points: a connection is a stream of byte chunks, with a buffer and a number of its own, a file is a byte sequence, and each model method is one atomic step. `load`, which takes no lock, is a step that does not overlap others.
- Floating-point rounding, NaN, negative zero, infinities and overflow of sums: amounts are reals. The finiteness checks inside the codecs are modelled on the bits.
- Signed 64-bit overflow of time arithmetic, and a delay or a duration so large that it overflows.
- Whole counts above 2^53, which the source rounds when a load stores them as doubles, and negative forecast amounts, whose conversion to a count is undefined there.
- Amounts beyond the range of an unsigned 64-bit integer: the cut to whole bytes saturates, where the source's conversion is undefined.
- Persistence.OtherLengthRefused: leaves out cuts of files of 4 GiB and more, of which `Persistence.OtherLengthReadIff` says exactly which are read.
- Authority.OtherLengthChangesNothing: leaves out the same cuts.
- Persistence.Save: takes the durable words; writing a real amount as a double is stated as a relation (`Writes` in `Restart.dfy`) rather than computed.
- Timelines.SortByTime: is an insertion sort where the source calls a library sort, with the order of ties left open as the source's sort leaves it.
- Scenarios.ScenariosCompose: excludes DegradeDevice in the second scenario; `DegradeComposesIff` is exact for one such action.
- Feasibility.FitIsMonotone: a weaker demand must store no zero requirement, which `setAmount` never stores.
- Topology, registered demands, headroom queries and confidence: they do not influence the modelled answers. Of a registered device only the fields that a view could show are kept, not its generation.
- Replies, bottleneck and reason texts, candidate counts, memory-domain fields, digests and the command line: text and reporting only.
- Queries over the wire and the save message: they read the payload and change no model state.
- Headroom inside `evaluateNow`: computed by the source and not used for the outcome.
- `v |= b << 8i` on disjoint bits is a sum, and exclusive or is defined bit by bit on integers.

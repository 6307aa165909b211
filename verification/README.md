# Verified models of the device's hardware layers

The project models, in Dafny, the parts of this device tree in which something has to be got right
over time or over all inputs:

- **Sensor multi-HAL** (`SensorEventQueue.dfy`, `SensorHandles.dfy`, `MultihalPoll.dfy`,
  `MultihalSystem.dfy`). One writer per sub-HAL reserves a region of a ring buffer under a lock,
  lets the device fill it without the lock, and commits under the lock; one poller drains all
  queues in turn, makes handles global and drops unknown ones. The queue, the handle registry and
  the poll context are classes; all actors together are a transition system in which the proofs
  range over every interleaving of any number of writers with the poller and with the building of
  the sensor list.
- **Interrupt balancer** (`IrqTables.dfy`, `IrqMoves.dfy`, `IrqBalancer.dfy`, `IrqRuns.dfy`,
  `IrqRequests.dfy`, `IrqExamples.dfy`). Tables and the choice of an interrupt; which moves an
  iteration makes; the balancer as a class over the code's three arrays; whole runs with the deadband; what exactly an
  iteration requests, in the numbers of its tables; inputs on which it does not do what it means to.
- **Thermal throttling** (`ThermalSeverity.dfy`, `ThermalWatcher.dfy`, `ThermalCallbacks.dfy`,
  `ThermalListeners.dfy`, `ThermalService.dfy`). The hysteresis of one sensor; the watcher's state
  over any rounds; one delivery to the listeners; listeners that come, go and fail; and the watcher
  and the listeners together, up to a theorem from readings to what a listener knows.
- **Camera parameters** (`CameraParameters.dfy`). The printer and parser of the parameter map.
- **Planes of pixels** (`YuvPacking.dfy`, `YuvCrop.dfy`, `YuvBytes.dfy`). Removing and
  restoring row padding, and cropping with a subsampled plane; both in bytes and coordinates.

`Wrappers.dfy` has the option type, `Subsequences.dfy` the positions of the entries that a filter keeps.

Methods follow the code's loops and are proved against functions on sequences; the properties are
lemmas about these functions.

## What the proofs found

Where a property that the code or its comments suggest does not hold, the model keeps the code as it
is and proves exactly when it holds:

- The deadband (msm_irqbalance/msm_irqbalance.c:67-68) covers recorded moves only, and evacuation from banned CPUs
  records nothing (lines 1033-1056). An interrupt may move again in the very next iteration iff it was
  moved by evacuation, from iteration 2 on (`IrqRuns.DeadbandIffNotEvacuated`;
  `IrqExamples.InterruptMovesTwice`).
- Interrupts are requested for a banned CPU iff something moves and all CPUs are banned
  (`IrqMoves.TargetsAreAvailable`; `IrqExamples.BannedCpuIsTarget`).
- `find_irq_w_close_count` subtracts below zero when its table is full and every rate is above the
  target, and then starts at a wrong slot iff the last two rates differ (`IrqTables.StartInFullTable`;
  `IrqExamples.StartIsNotNearest`). It gives up although an interrupt could move iff there is an idle
  slot and every active interrupt is at least twice as fast as the target (`IrqTables.NothingFoundIff`;
  `IrqExamples.MovableIsNotFound`).
- `activate` and `setDelay` refuse sensors with negative local handles, although their events are
  delivered (`SensorHandles.DispatchRoundTrip`; `SensorHandles.NegativeLocalHandleCannotBeCommanded`).
- Corrupted events are meant not to be passed upstream (hidl/sensors/multihal.cpp:355). One is iff it
  is a metadata event about an unknown sensor whose `sensor` is not -1, as only that field is compared
  with -1
  (`SensorHandles.CorruptedIsPassedOnIff`; `SensorHandles.CorruptedMetaDataIsPassedOn`).
- Trip points in order, which is all the configuration parser asks for, do not keep a sensor from
  rising to a level whose trip point was not reached; they do iff the levels that occur are separated
  from those above them (`ThermalSeverity.RisesOnlyOnTripIffSeparated`; `ThermalSeverity.RiseWithoutTrip`).
  Without hysteresis, as in the shipped configuration, a reading on a trip point makes the severity
  flip (`ThermalSeverity.StableIffHeldAtTrip`; `ThermalSeverity.FlipsBack`), and hotter readings can be
  less severe (`ThermalSeverity.MonotoneIffDampened`; `ThermalSeverity.CoolerIsMoreSevere`).
- A reading on a level's trip point does not always give at least that level: when severity falls, it
  does iff some level from there on is still held (`ThermalSeverity.ReachedIsKeptIff`;
  `ThermalSeverity.FlipsBack`).
- The watcher's flag leaves out sensors whose read failed: it is wrong iff such a sensor was severe
  and no other one is (`ThermalWatcher.FlagIsRightIff`, `ThermalWatcher.FlagIsWrongIff`;
  `ThermalWatcher.FlagMissesFailedRead`).
- `unflatten` brings in keys with ';' that `set` refuses iff a part of the string without '=' comes
  before an '=' (`CameraParametersModel.SemicolonInKeyIff`; `CameraParametersModel.SemicolonInKey`). All
  entries are such that `set` would accept them iff, besides, no part has two '='
  (`CameraParametersModel.SettableIff`). The round trip holds in any case
  (`CameraParametersModel.RoundTrip`).
- `yuv420sp_crop` allocates too little iff the width is odd and a chroma row is copied
  (`YuvCrop.AllocationFitsIffEven`), odd offsets mix up colours (`YuvCrop.ColoursRightIffEvenOffsets`),
  and so does a centred crop unless its margins are multiples of 4 (`YuvCrop.CentredCropIsRightIff`).
  Its caller also crops streams that are narrower but taller than the source, which reads past it
  (`YuvCrop.ReadsFitIff`; `YuvCrop.TallCropReadsPast`).

## Model

| member | source | states |
|---|---|---|
| `MultihalSystem.NothingLost` | hidl/sensors/multihal.cpp:142-179 | In every state of every run, for every queue: what was dequeued followed by what is readable is exactly what the device committed, in order; the events given to the caller from that queue are the dequeued ones, each remapped with the handles issued by the time of its dequeue, minus those with `sensor` -1; and these handles only become more |
| `MultihalSystem.EachEventIsCopied` | hidl/sensors/multihal.cpp:315-360 | In every run, event by event: of those dequeued from a queue exactly the ones that may arrive have been passed on, in order, and each copy has the same timestamp, payload and other fields; only one handle is replaced, by the last number issued to that sensor or -1 |
| `MultihalSystem.AllReturnedIsCommitted` | hidl/sensors/multihal.cpp:142-179 | In every run, what a device has returned so far is what its writer has committed, followed by what it still holds |
| `MultihalSystem.ArrivesIffListed` | hidl/sensors/multihal.cpp:315-360 | If no handle is issued twice: in every run, with the sensor list built before, after or during it, an ordinary event reaches the caller iff its sensor was listed when it was dequeued, and under the handle that this sensor has for good |
| `MultihalSystem.NobodyServedTwice` | hidl/sensors/multihal.cpp:345-363 | In every run, also across `poll` calls: while a queue keeps an event, no other queue is served twice before it is served |
| `MultihalSystem.NoLostWakeUps` | hidl/sensors/multihal.cpp:149-175 | An unsignalled sleeping poller implies `waiting_for_data` and queues that are empty (or about to be announced by the lock holder); an unsignalled sleeping writer implies a full queue; the two never happen together |
| `MultihalSystem.NoDeadlock` | hidl/sensors/multihal.cpp:345-373 | Where the code can take no step by itself, the poller is idle or asleep, every writer waits for its device or (with the poller idle) for space, and a sleeping poller's queues are all empty |
| `MultihalSystem.UndisturbedRunSettles` | hidl/sensors/multihal.cpp:142-179 | From every state of every run, if devices, callers and spurious wake-ups leave the code alone, every schedule of its own steps ends, with the poller idle or asleep over drained queues |
| `MultihalSystem.OwnStepRanksLower` | hidl/sensors/multihal.cpp:337-377 | Every own step lowers a rank: records to be committed and announced, then queued events, then what writers and poller have still to do |
| `MultihalSystem.RegionsStaySafe` | hidl/sensors/SensorEventQueue.cpp:39-63 | While a writer fills its region without the lock the region starts right after the readable records, fits, and never meets them; committing appends exactly the records the device returned |
| `MultihalSystem.PollReturnsSome` | hidl/sensors/multihal.cpp:345-376 | A returning poll call gives between one and `maxReads` events, fewer only if all queues are empty, and those are its batch |
| `MultihalSystem.RunHasInv` | hidl/sensors/multihal.cpp:142-179 | Every state of every interleaving of any number of writers and the poller has the invariant, and every step any of them could take next stays inside the arrays |
| `MultihalSystem.StepKeepsInv` | hidl/sensors/multihal.cpp:337-377 | Each step of each actor keeps the invariant |
| `MultihalSystem.InitHasInv` | hidl/sensors/multihal.cpp:220-234 | The invariant holds when the queues are created |
| `MultihalPoll.SensorsPollContext.DrainQueues` | hidl/sensors/multihal.cpp:343-363 | The drain loop on the queue objects leaves them, the read index and the caller's buffer as the whole-loop function says, and terminates |
| `MultihalPoll.SensorsPollContext.ReadNext` | hidl/sensors/multihal.cpp:347-362 | One look at a queue: peek, copy with the global handle, count unless `sensor` is -1, dequeue, advance |
| `MultihalPoll.DrainIsFaithful` | hidl/sensors/multihal.cpp:343-376 | A pass gives at most `maxReads` events, and fewer only when all queues are empty; per queue, taken plus left is what was there and the batch is the taken events remapped and filtered; queues take turns |
| `MultihalPoll.BatchIsCopied` | hidl/sensors/multihal.cpp:343-363 | The batch field by field: copies, but for one handle, of exactly the events taken that may arrive, in that order and from those queues |
| `MultihalPoll.DrainResumes` | hidl/sensors/multihal.cpp:346-363 | The next pass begins with the queue after the one that gave the last event, or where this one began if there was none |
| `MultihalPoll.AtMostOneInBetween` | hidl/sensors/multihal.cpp:346-363 | Between two consecutive events of one queue at most one event of any other queue is taken |
| `MultihalPoll.ScanMakesProgress` | hidl/sensors/multihal.cpp:346-363 | Each iteration lowers the number of queued events, or the queues still to be found empty: the loop terminates |
| `MultihalPoll.UpstreamPerQueue` | hidl/sensors/multihal.cpp:315-360 | Remapping and dropping commute with looking at one queue |
| `EventQueue.SensorEventQueue.constructor` | hidl/sensors/SensorEventQueue.cpp:24-31 | A new queue is empty and has the asked capacity |
| `EventQueue.SensorEventQueue.GetWritableRegion` | hidl/sensors/SensorEventQueue.cpp:39-59 | The code's two clamps give a region that starts after the readable records and is as long as request, free space and array end allow; at least one slot iff there is space |
| `EventQueue.SensorEventQueue.MarkAsWritten` | hidl/sensors/SensorEventQueue.cpp:61-63 | Committing any part of a reserved region appends exactly the records in it |
| `EventQueue.SensorEventQueue.GetSize` | hidl/sensors/SensorEventQueue.cpp:65-67 | The number of readable records |
| `EventQueue.SensorEventQueue.Peek` | hidl/sensors/SensorEventQueue.cpp:69-72 | The oldest readable record, or null iff there is none |
| `EventQueue.SensorEventQueue.Dequeue` | hidl/sensors/SensorEventQueue.cpp:74-81 | Removes exactly the oldest record and signals space iff the queue was full |
| `EventQueue.SensorEventQueue.FillSlot` | hidl/sensors/multihal.cpp:154-159 | A device's store into its reserved region is invisible to the reader |
| `EventQueue.ReserveFillCommit` | hidl/sensors/SensorEventQueue.cpp:39-81 | Reserve, any number of concurrent dequeues, fill, commit: the reader's view is what was left followed by the writer's records |
| `EventQueue.ReservationSurvivesDequeues` | hidl/sensors/SensorEventQueue.cpp:74-81 | A reservation stays right after the readable records and fits, after any number of dequeues |
| `EventQueue.CommitAppends` | hidl/sensors/SensorEventQueue.cpp:61-63 | Committing `written` records of a reserved region keeps the size within the capacity and appends them |
| `EventQueue.ReservedIsDisjoint` | hidl/sensors/SensorEventQueue.cpp:53-56 | No slot of a reserved region is a readable slot, however the records wrap |
| `EventQueue.RegionIsLargest` | hidl/sensors/SensorEventQueue.cpp:39-59 | A region of some length fits the request, ends with the array and meets no readable record iff it is not longer than the one given |
| `EventQueue.SlotIsRemainder` | hidl/sensors/SensorEventQueue.cpp:45 | The slot arithmetic is the code's remainder |
| `SensorHandles.HandleRegistry.AssignGlobalHandle` | hidl/sensors/multihal.cpp:91-99 | The next handle number, entered into both maps |
| `SensorHandles.HandleRegistry.BuildSensorsList` | hidl/sensors/multihal.cpp:667-698 | The n-th sensor over all modules gets global handle n and keeps its other fields; the maps invert each other iff local handles are distinct in each module |
| `SensorHandles.SensorIsAt` | hidl/sensors/multihal.cpp:667-698 | Sensors are numbered module by module, in the order of each module's list, and keep their other fields |
| `SensorHandles.HandleRegistry.GetLocalHandle` | hidl/sensors/multihal.cpp:102-108 | The local handle issued under a global one, or -1 |
| `SensorHandles.HandleRegistry.GetModuleIndex` | hidl/sensors/multihal.cpp:112-121 | The module of a global handle, or -1 |
| `SensorHandles.HandleRegistry.DispatchCommand` | hidl/sensors/multihal.cpp:286-313 | Which sub-HAL `activate` and `setDelay` call with which local handle, or that they refuse |
| `SensorHandles.DispatchRoundTrip` | hidl/sensors/multihal.cpp:286-335 | A command on g reaches (m, l) iff an event l of queue m is returned under g and l is not negative |
| `SensorHandles.NegativeLocalHandleCannotBeCommanded` | hidl/sensors/multihal.cpp:291 | An input on which delivery and dispatch disagree |
| `SensorHandles.KeptIffKnown` | hidl/sensors/multihal.cpp:315-360 | An ordinary event is passed on iff its handle is known; a metadata event iff its `sensor` field is not -1, whatever handle it has inside |
| `SensorHandles.RemapIsCopy` | hidl/sensors/multihal.cpp:315-335 | Remapping keeps timestamp and payload; a sample gets the last number issued to its sensor, or -1, and a metadata event gets it inside and keeps its `sensor` |
| `SensorHandles.CorruptedIsPassedOnIff` | hidl/sensors/multihal.cpp:329-357 | An event is passed on corrupted, with -1 as its handle, iff it is a metadata event about an unknown sensor whose `sensor` field is not -1 |
| `SensorHandles.CorruptedMetaDataIsPassedOn` | hidl/sensors/multihal.cpp:329-357 | Such an event: with no sensor known, a metadata event about sensor 5 is passed on with -1 inside |
| `SensorHandles.TablesAreDetermined` | hidl/sensors/multihal.cpp:87-99 | Both maps are determined by the sequence of handles issued |
| `SensorHandles.HandlesNeverChange` | hidl/sensors/multihal.cpp:91-99 | While local handles stay distinct, issuing more handles changes nobody's global handle |
| `SensorHandles.InversesIffDistinct` | hidl/sensors/multihal.cpp:87-99 | The two maps are mutual inverses iff no full handle was issued twice |
| `SensorHandles.DistinctIffLocalHandlesDistinct` | hidl/sensors/multihal.cpp:667-698 | No full handle is issued twice iff local handles are distinct within each module |
| `IrqBalancer.Balancer.BalanceIrq` | msm_irqbalance/msm_irqbalance.c:1095-1140 | One iteration: sorts tables and CPUs, clears banned CPUs, and only if nothing had to move makes a balancing decision; states the requests, the new tables, the new list and the return value, and keeps the deadband's contract |
| `IrqBalancer.Balancer.ClearOrBalance` | msm_irqbalance/msm_irqbalance.c:1123-1137 | The choice between clearing banned CPUs and balancing |
| `IrqBalancer.Balancer.MoveIrqFromBannedCpus` | msm_irqbalance/msm_irqbalance.c:998-1066 | Despite the early `break` requests exactly the moves that must happen, dealt over the available CPUs in rotation, and returns their number; only targets' tables change; the list is left alone |
| `IrqBalancer.Balancer.MoveAllIrqsFromBannedCpus` | msm_irqbalance/msm_irqbalance.c:947-995 | In the first iteration deals every listed interrupt that is not ignored over the available CPUs and notes each; nothing when no CPU is banned |
| `IrqBalancer.Balancer.MakeBalancingDecision` | msm_irqbalance/msm_irqbalance.c:814-885 | Issues the decision's request, if any, notes it even if the request fails, and registers it at the target if it succeeds |
| `IrqBalancer.FindMove` | msm_irqbalance/msm_irqbalance.c:820-875 | The code's two searches find the decision's request |
| `IrqBalancer.WorthMovingFrom` | msm_irqbalance/msm_irqbalance.c:834-861 | The code's tests on one busy CPU find the interrupt worth moving |
| `IrqBalancer.Balancer.Rotate` | msm_irqbalance/msm_irqbalance.c:974-984 | Although the code tests only the number of CPUs and the ban, the index never leaves the available prefix |
| `IrqBalancer.Balancer.GetNumAvailCpus` | msm_irqbalance/msm_irqbalance.c:926-941 | On a list sorted by priority it counts the available CPUs: they are exactly the first ones |
| `IrqBalancer.Balancer.AddIrqToList` | msm_irqbalance/msm_irqbalance.c:473-490 | An unknown interrupt is listed as never moved if there is room; nothing else changes |
| `IrqBalancer.Balancer.SortTables` | msm_irqbalance/msm_irqbalance.c:1110-1117 | The active CPUs' tables are permuted into the comparator's order, nothing else changes |
| `IrqBalancer.Balancer.SortByPriority` | msm_irqbalance/msm_irqbalance.c:673-696 | The active CPUs are permuted into falling priority |
| `IrqBalancer.Balancer.SortByLoad` | msm_irqbalance/msm_irqbalance.c:648-671 | The active CPUs are permuted into falling load |
| `IrqRuns.Run` | msm_irqbalance/msm_irqbalance.c:1175-1233 | The main loop on the balancer object: it goes through a valid run whose iterations work on the readings given, sorted; its log is the run's requests and respects the deadband after every recorded move; it ends early only with a failed request |
| `IrqRuns.RunRespectsDeadband` | msm_irqbalance/msm_irqbalance.c:1206-1228 | In the request log of every run two requests for one interrupt, the first one recorded, are at least two iterations apart |
| `IrqBalancer.Balancer.ReadInterruptActivity` | msm_irqbalance/msm_irqbalance.c:492-552 | The readings replace tables and active CPUs; every interrupt read is listed afterwards unless the list is full, new ones as never moved, and no others are |
| `IrqRuns.NoMoveWithinDeadband` | msm_irqbalance/msm_irqbalance.c:626-646 | Over whole runs: after a recorded move no path requests the same interrupt again in that iteration or the next |
| `IrqRuns.MovableIffOutOfDeadband` | msm_irqbalance/msm_irqbalance.c:637-646 | In every run the deadband test passes iff the interrupt's last recorded move is at least two iterations old |
| `IrqRuns.DeadbandIffRecorded` | msm_irqbalance/msm_irqbalance.c:1033-1056 | From iteration 2 on, an interrupt just moved may move again in the next iteration iff its request was not recorded |
| `IrqRuns.DeadbandIffNotEvacuated` | msm_irqbalance/msm_irqbalance.c:637-646 | In every run, from iteration 2 on: an interrupt just moved may move again in the next iteration iff a banned CPU had something that must move, so that it was taken from one |
| `IrqRuns.EvacuatedIsMovable` | msm_irqbalance/msm_irqbalance.c:1033-1056 | Every interrupt that had to leave a banned CPU is requested in that iteration and out of deadband in the next |
| `IrqMoves.RecordedIffNotEvacuation` | msm_irqbalance/msm_irqbalance.c:862-873 | The requests of an iteration are recorded iff it is the first one or nothing must move from banned CPUs |
| `IrqRuns.RunRemembers` | msm_irqbalance/msm_irqbalance.c:862-873 | In every run the list holds each interrupt's last recorded move |
| `IrqRuns.RunListsWhatIsSeen` | msm_irqbalance/msm_irqbalance.c:473-490 | In every run exactly the interrupts read so far are listed, as long as there is room |
| `IrqRuns.RunHasPastMoves` | msm_irqbalance/msm_irqbalance.c:626-646 | In every run no listed interrupt is noted later than the present iteration |
| `IrqRuns.EvacuationRepeats` | msm_irqbalance/msm_irqbalance.c:1033-1056 | In every run, if an evacuated interrupt is active on a banned CPU after the next readings, whatever else these say, it is evacuated again in the next iteration |
| `IrqExamples.InterruptMovesTwice` | msm_irqbalance/msm_irqbalance.c:1033-1056 | A valid run of three iterations in which an interrupt is moved, successfully, in the second and the third, against the comment at lines 67-68 |
| `IrqMoves.MovesAreExact` | msm_irqbalance/msm_irqbalance.c:1013-1066 | The evacuated (CPU, interrupt) pairs are exactly those of banned CPUs that are active, not ignored and out of deadband |
| `IrqRequests.EvacuationIsExact` | msm_irqbalance/msm_irqbalance.c:998-1066 | After the first iteration the requests are exactly those for entries of banned CPUs with a rate above 0, not ignored and not noted in the last two iterations; last CPU first, in the order of its table, to the available CPUs in turn, not recorded |
| `IrqRequests.FirstEvacuationIsExact` | msm_irqbalance/msm_irqbalance.c:947-995 | In the first iteration, if a CPU is banned, they are exactly those for the listed interrupts that are not ignored, in order, in turn, and recorded |
| `IrqMoves.MovesAreDistinct` | msm_irqbalance/msm_irqbalance.c:1013-1066 | No pair is moved twice, so the returned count is the number of such entries |
| `IrqMoves.RestIsIdle` | msm_irqbalance/msm_irqbalance.c:1057-1059 | After the first slot without activity of a sorted table nothing has to move |
| `IrqMoves.RotationIsEven` | msm_irqbalance/msm_irqbalance.c:973-984 | No CPU gets two interrupts more than another |
| `IrqMoves.DealtCount` | msm_irqbalance/msm_irqbalance.c:973-984 | How many requests each CPU gets: the full rounds, and one more for the first CPUs |
| `IrqMoves.TargetsAreAvailable` | msm_irqbalance/msm_irqbalance.c:1043-1055 | No target is banned iff some CPU is available or nothing moves |
| `IrqExamples.BannedCpuIsTarget` | msm_irqbalance/msm_irqbalance.c:1043-1055 | With both CPUs banned an interrupt is requested for a banned one |
| `IrqMoves.WantedIsExact` | msm_irqbalance/msm_irqbalance.c:963-970 | The interrupts of the first iteration are exactly the listed ones that are not ignored, each once |
| `IrqMoves.DecisionIsJustified` | msm_irqbalance/msm_irqbalance.c:814-885 | A balancing request goes from a strictly busier CPU to one that is not banned, for an active interrupt out of deadband, by a gap that does not wrap and exceeds the configured share |
| `IrqRequests.DecisionIs` | msm_irqbalance/msm_irqbalance.c:814-885 | The source is the first CPU by falling load whose difference to the last unbanned one exceeds the share, which has a second active interrupt, and for half that difference an interrupt is found and listed: then exactly that interrupt is requested for that target |
| `IrqRequests.DecisionIff` | msm_irqbalance/msm_irqbalance.c:814-885 | A decision requests something iff there are such CPUs and such an interrupt |
| `IrqRequests.FoundIsExact` | msm_irqbalance/msm_irqbalance.c:727-781 | The interrupt found: the first one from the start slot on that can move, else the last one before it, and none if the start slot is idle |
| `IrqRequests.StartIsExact` | msm_irqbalance/msm_irqbalance.c:733-750 | The start slot is the nearest to the target by truncated rate, which of several, and where wrapping misleads |
| `IrqExamples.HalfTheGapMoves` | msm_irqbalance/msm_irqbalance.c:835-846 | With loads 1000 and 0 and interrupts of rates 900 and 450 the second one is moved |
| `IrqMoves.AppliedKeepsLoads` | msm_irqbalance/msm_irqbalance.c:794-812 | Requests change no rate, no load and no priority, and nothing at CPUs that are no target |
| `IrqMoves.AppliedIsExact` | msm_irqbalance/msm_irqbalance.c:794-812 | Only requests that succeed change a table; each is found in its target's table afterwards unless that is full |
| `IrqMoves.BalancedIsStep` | msm_irqbalance/msm_irqbalance.c:1095-1140 | Whichever path an iteration takes, it keeps the deadband's contract |
| `IrqTables.StartIsNearest` | msm_irqbalance/msm_irqbalance.c:733-750 | If some slot is not above the target, no subtraction wraps and the search starts at the nearest truncated rate |
| `IrqTables.StartInFullTable` | msm_irqbalance/msm_irqbalance.c:738-750 | Over a full table above the target the subtraction wraps: when the search starts early, and that it misses the nearest slot iff the last two rates differ |
| `IrqTables.CloseIrqChoice` | msm_irqbalance/msm_irqbalance.c:752-781 | Which interrupt is chosen among the movable ones, and, for an active start slot, none iff every active interrupt is in its deadband; an inactive start slot gives none |
| `IrqTables.StartIsIdleIff` | msm_irqbalance/msm_irqbalance.c:733-756 | The start slot is without activity iff some slot is and every active interrupt is at least twice as fast as the target |
| `IrqTables.NothingFoundIff` | msm_irqbalance/msm_irqbalance.c:727-781 | If some interrupt may move, none is found iff some slot is without activity and every active interrupt is at least twice as fast as the target |
| `IrqExamples.MovableIsNotFound` | msm_irqbalance/msm_irqbalance.c:752-756 | A table on which an interrupt may move and none is found |
| `IrqExamples.StartIsNotNearest` | msm_irqbalance/msm_irqbalance.c:738-750 | A full table on which the search does not start at the nearest slot |
| `IrqTables.FindStartSlot` | msm_irqbalance/msm_irqbalance.c:733-750 | The code's start slot |
| `IrqTables.FindIrqWithCloseCount` | msm_irqbalance/msm_irqbalance.c:727-781 | The code's two searches give the chosen slot |
| `IrqTables.MoveInterruptInfo` | msm_irqbalance/msm_irqbalance.c:794-812 | Registers the interrupt in its slot or the first free one |
| `IrqTables.RegisterKeepsActivity` | msm_irqbalance/msm_irqbalance.c:794-812 | That changes no rate, and the interrupt is in the table afterwards iff it was or there was a free slot |
| `IrqTables.RegisterAt` | msm_irqbalance/msm_irqbalance.c:794-812 | The interrupt's own slot or, before that, the first free one gets its number, the previous count and no average, and keeps its rate; other slots stay as they are |
| `IrqTables.RegisterInFull` | msm_irqbalance/msm_irqbalance.c:794-812 | A full table without the interrupt stays as it is |
| `IrqTables.SortedTableIsValid` | msm_irqbalance/msm_irqbalance.c:699-722 | A table sorted by the comparator has used slots before unused ones, and these by falling rate |
| `ThermalSeverity.GetSeverityFromThresholds` | hidl/thermal/thermal-helper.cpp:338-377 | The descending loop with its four variables computes the next severity of both sides |
| `ThermalSeverity.SeverityIsTriggerBank` | hidl/thermal/thermal-helper.cpp:338-377 | For thresholds that are in order, released above all lower trip points and dampened: over any readings from NONE the one remembered severity equals a bank of independent triggers, one per level, set at the trip point and reset at the release point |
| `ThermalSeverity.TriggerBankIff` | hidl/thermal/thermal-helper.cpp:338-377 | For trip points in order: the one remembered severity equals the bank of triggers after all readings iff no trigger is reset before one of a higher level, severity rises on trips only, and levels are held at their trip points |
| `ThermalSeverity.RisesOnlyOnTripIffSeparated` | hidl/thermal/thermal-helper.cpp:345-373 | For trip points in order, over all readings from NONE: severity rises only to a level whose trip point is reached iff no level that occurs is entered above the release point of a higher one |
| `ThermalSeverity.RiseWithoutTrip` | hidl/thermal/thermal-helper.cpp:352-371 | For every pair of levels that violates this, readings that lead to the lower one and a reading on which it rises without a trip |
| `ThermalSeverity.OccursIffEntered` | hidl/thermal/thermal-helper.cpp:338-377 | For trip points in order: which severities occur after some readings, in terms of trip and release points |
| `ThermalSeverity.TogetherIsHarmless` | hidl/thermal/thermal-helper.cpp:345-373 | Two levels with one trip point, released apart: the lower one never occurs, and severity rises on trips only |
| `ThermalSeverity.FallsOnlyBelowRelease` | hidl/thermal/thermal-helper.cpp:369-374 | Falling below a configured level takes a reading at or below its release point |
| `ThermalSeverity.ReachedIsKeptIff` | hidl/thermal/thermal-helper.cpp:345-373 | A reading at or above a level's trip point gives at least that level iff severity was not above all levels it trips, or it is above the release point of that level or a higher one |
| `ThermalSeverity.StableIffDampened` | hidl/thermal/thermal-helper.cpp:348-356 | When levels are released at or above all lower trip points: repeating a reading changes nothing iff every level that trips before the ones above it has positive hysteresis |
| `ThermalSeverity.StableIffHeldAtTrip` | hidl/thermal/thermal-helper.cpp:348-371 | For any thresholds: repeating a reading changes nothing iff every level that trips before the ones above it is held at its trip point, by itself or by one of those |
| `ThermalSeverity.FlipsBack` | hidl/thermal/thermal-helper.cpp:348-356 | Without hysteresis a reading on the trip point flips between two severities |
| `ThermalSeverity.NextIsMonotone` | hidl/thermal/thermal-helper.cpp:338-377 | For separated and dampened thresholds a hotter reading from a higher severity never ends lower |
| `ThermalSeverity.HotterIsNotLessSevere` | hidl/thermal/thermal-helper.cpp:338-377 | For separated and dampened thresholds readings that are hotter everywhere are never less severe at the end |
| `ThermalSeverity.MonotoneIffDampened` | hidl/thermal/thermal-helper.cpp:338-377 | For separated thresholds: hotter readings are never less severe iff every level that trips before the ones above it has positive hysteresis |
| `ThermalSeverity.CoolerIsMoreSevere` | hidl/thermal/thermal-helper.cpp:338-377 | Without it, two sequences of readings of which the hotter one ends less severe |
| `ThermalSeverity.MirroredReadsColdSide` | hidl/thermal/thermal-helper.cpp:357-364 | What the mirrored band says for the cold side |
| `ThermalWatcher.Watcher.OnWatch` | hidl/thermal/thermal-helper.cpp:558-615 | A round's new statuses, its notifications in order, and the returned flag |
| `ThermalWatcher.VisitSensors` | hidl/thermal/thermal-helper.cpp:561-609 | The loop over the sensors |
| `ThermalWatcher.VisitSensor` | hidl/thermal/thermal-helper.cpp:562-608 | One sensor: filtered, failed or read |
| `ThermalWatcher.VisitedIsExact` | hidl/thermal/thermal-helper.cpp:562-608 | A round changes exactly the sensors that are monitored, not left out by the events and read: both sides go on from where they were, and severity is the worse one |
| `ThermalWatcher.ReachedIsStored` | hidl/thermal/thermal-helper.cpp:285-315 | A sensor as hot as a hot trip point, or as cold as a cold one, is stored as at least that severe if the level has hysteresis or that side was not above it |
| `ThermalWatcher.StoredIsReached` | hidl/thermal/thermal-helper.cpp:285-315 | The stored severity's trip point is reached on some side, or the reading is within its hysteresis |
| `ThermalWatcher.NoticesAreExact` | hidl/thermal/thermal-helper.cpp:596-606 | A round notifies of exactly the sensors whose severity changed, in the order of the status map, with kind, name, value read and new severity |
| `ThermalWatcher.FlagIsExact` | hidl/thermal/thermal-helper.cpp:571-608 | The flag is set iff some monitored sensor is above NONE and was read or left out by the events |
| `ThermalWatcher.SeenReadingsAreExact` | hidl/thermal/thermal-helper.cpp:562-586 | The values that count are those of the rounds that read the sensor, in order |
| `ThermalWatcher.Watch` | hidl/thermal/thermal-helper.cpp:558-615 | Over any rounds the watcher goes through the specified states and emits the specified notifications |
| `ThermalWatcher.StatusFollowsReadings` | hidl/thermal/thermal-helper.cpp:291-312 | In every reachable state severity is at least that of each side and equal to one of them, and each side is the hysteresis of the values actually read |
| `ThermalWatcher.ReplayGivesSeverities` | hidl/thermal/thermal-helper.cpp:600-612 | Replaying all notifications from NONE gives every stored severity |
| `ThermalWatcher.TriggeredIffSomeSevere` | hidl/thermal/thermal-helper.cpp:571-608 | When no read fails the flag is true iff some monitored sensor is above NONE |
| `ThermalWatcher.FlagIsRightIff` | hidl/thermal/thermal-helper.cpp:558-615 | For any round: the flag says whether some monitored sensor is above NONE iff none is, or one that is was not left unread |
| `ThermalWatcher.FlagIsWrongIff` | hidl/thermal/thermal-helper.cpp:580-608 | In terms of the state before the call: the flag is wrong iff some sensor was severe and its read failed, and no other one is severe afterwards |
| `ThermalWatcher.FlagMissesFailedRead` | hidl/thermal/thermal-helper.cpp:580-608 | Two rounds of one sensor, a hot reading and a failed one: it is stored as severe and the flag is false |
| `ThermalCallbacks.Thermal.RegisterThermalChangedCallback` | hidl/thermal/Thermal.cpp:171-198 | Appends a new listener; fails for null or a known one |
| `ThermalCallbacks.Thermal.UnregisterThermalChangedCallback` | hidl/thermal/Thermal.cpp:200-235 | Removes exactly the given listener; fails for null or an unknown one |
| `ThermalCallbacks.Thermal.SendThermalChangedCallback` | hidl/thermal/Thermal.cpp:237-257 | Each listener gets exactly its own view of the batch, nobody else is called, exactly those whose calls all succeeded remain, in order |
| `ThermalCallbacks.Thermal.Notify` | hidl/thermal/Thermal.cpp:243-255 | One temperature goes to the listeners it matches, and those that fail leave |
| `ThermalCallbacks.ListenerView` | hidl/thermal/Thermal.cpp:243-255 | A listener's view is the matching temperatures up to and including its first failing call |
| `ThermalCallbacks.ReceivedIsExact` | hidl/thermal/Thermal.cpp:243-255 | A listener is called with a temperature iff it asked for that kind, or for all, and no earlier call failed |
| `ThermalCallbacks.MatchingIsExact` | hidl/thermal/Thermal.cpp:243-255 | The temperatures that match a listener are exactly those of the kind it asked for, or all, in order |
| `ThermalCallbacks.CallsToIsExact` | hidl/thermal/Thermal.cpp:243-255 | What is said to be heard by a listener are exactly the entries of the call log for it, in order |
| `ThermalCallbacks.WithoutIsExact` | hidl/thermal/Thermal.cpp:210-227 | Removal keeps the other listeners in their order |
| `ThermalCallbacks.SurvivorsAreExact` | hidl/thermal/Thermal.cpp:243-255 | A delivery keeps exactly the listeners of whose calls none failed, in their order |
| `ThermalCallbacks.SurvivorsAreOrdered` | hidl/thermal/Thermal.cpp:243-255 | The listeners that remain are those without a failure, still distinct |
| `ThermalListeners.Perform` | hidl/thermal/Thermal.cpp:171-257 | On the list object: after any registrations, removals and deliveries, the listeners and every call ever made to any of them are what these operations say |
| `ThermalListeners.HeardFromRegistration` | hidl/thermal/Thermal.cpp:171-257 | From its registration on a listener hears all deliveries as if they were one batch, and is registered iff no call failed |
| `ThermalListeners.ListenerHears` | hidl/thermal/Thermal.cpp:237-257 | A listener that registers after any operations and first fails at the k-th temperature delivered since hears exactly the matching ones of those up to it |
| `ThermalService.Serve` | hidl/thermal/thermal-helper.cpp:558-615 | The watcher object and the list object together: over any rounds and any requests of clients between them they go through the specified states, and the calls made are those of the temperatures emitted |
| `ThermalService.ListenerFollowsSeverities` | hidl/thermal/thermal-helper.cpp:600-612 | A listener still registered, whenever it came: for a sensor that passes its filter its last word since then is the true severity, and if it heard nothing that is the severity when it came |
| `ThermalService.ListenerKnowsSeverities` | hidl/thermal/thermal-helper.cpp:600-612 | End to end: for a listener that registered while a sensor was at NONE and is still registered, replaying what it was called with since gives the true severity of that sensor if it passes the filter, and that is the hysteresis of the values read |
| `ThermalService.EarlyListenerKnowsSeverities` | hidl/thermal/thermal-helper.cpp:600-612 | A listener that registered before the first round and is still registered knows the true severity of every sensor that passes its filter from all it was ever called with |
| `CameraParametersModel.CameraParameters.Flatten` | camera/compat/CameraParameters.cpp:186-204 | The printed string, from which a well-formed map is read back |
| `CameraParametersModel.CameraParameters.Unflatten` | camera/compat/CameraParameters.cpp:206-236 | Whatever the string, the map becomes what the string says and is well-formed: no '=' in keys, no ';' in values |
| `CameraParametersModel.CameraParameters.NextEntry` | camera/compat/CameraParameters.cpp:209-232 | One turn of the parser splits the string: key, '=', value, and unless it was the last entry ';' and what comes after it, with no '=' in the key and no ';' in the value |
| `CameraParametersModel.SemicolonInKeyIff` | camera/compat/CameraParameters.cpp:206-241 | The map read from a string has a key with ';', which `set` refuses, iff a part of the string that ends with ';' has no '=' and an '=' comes later |
| `CameraParametersModel.SettableIff` | camera/compat/CameraParameters.cpp:206-253 | `set` would accept every entry of a string iff there is no such part and no part has two '=' |
| `CameraParametersModel.SemicolonInKey` | camera/compat/CameraParameters.cpp:206-241 | Such a string, and that it is printed again as it was |
| `CameraParametersModel.CameraParameters.Set` | camera/compat/CameraParameters.cpp:239-253 | Stores a value and changes no other, unless key or value has a separator |
| `CameraParametersModel.CameraParameters.Get` | camera/compat/CameraParameters.cpp:269-275 | The stored value; an absent key and an empty value look the same |
| `CameraParametersModel.CameraParameters.Remove` | camera/compat/CameraParameters.cpp:292-295 | Removes exactly that key |
| `CameraParametersModel.CameraParameters.constructor` | camera/compat/CameraParameters.cpp:177-180 | An empty map |
| `CameraParametersModel.RoundTrip` | camera/compat/CameraParameters.cpp:186-236 | `unflatten(flatten(m)) == m` for every well-formed map |
| `CameraParametersModel.NormalForm` | camera/compat/CameraParameters.cpp:186-236 | `flatten` after `unflatten` of any string is a normal form that stands for the same map |
| `CameraParametersModel.FlatIsInjective` | camera/compat/CameraParameters.cpp:186-204 | No two well-formed maps are printed the same way |
| `CameraParametersModel.FlatIsJoined` | camera/compat/CameraParameters.cpp:186-204 | Entries are printed as key, '=', value, with ';' between them and nowhere else |
| `CameraParametersModel.LessIffDiffers` | camera/compat/CameraParameters.cpp:186-204 | The order of the printed keys is that of dictionaries |
| `CameraParametersModel.LastEntryWins` | camera/compat/CameraParameters.cpp:206-236 | Of several entries for a key in a string the last one counts |
| `YuvPacking.YuvDataRelocate` | camera/QCamera2/HAL/QCamera2HWICallbacks.cpp:352-378 | The nested loops leave the frame's rows packed at the start of the destination and nothing else changed; -1 for a null buffer |
| `YuvPacking.YuvDataRecover` | camera/QCamera2/HAL/QCamera2HWICallbacks.cpp:380-407 | The nested loops write packed bytes back into the rows; -1 for a null buffer |
| `YuvBytes.LumaInBytes` | camera/QCamera2/HAL/QCamera2HWICallbacks.cpp:352-407 | For a luma and a chroma plane: byte x of luma row j is packed at j * width + x from offset + j * stride + x, and restored the other way if rows do not overlap |
| `YuvBytes.ChromaInBytes` | camera/QCamera2/HAL/QCamera2HWICallbacks.cpp:352-407 | The chroma rows, half as many as luma rows, follow in the packed bytes and begin at offset plus the luma length in the frame |
| `YuvBytes.PackedLength` | camera/QCamera2/HAL/QCamera2HWICallbacks.cpp:352-378 | The packed length: all luma rows and half as many chroma rows |
| `YuvBytes.RestKept` | camera/QCamera2/HAL/QCamera2HWICallbacks.cpp:380-407 | Restoring changes nothing but the bytes of these rows |
| `YuvBytes.TwoPlanesFitIff` | camera/QCamera2/HAL/QCamera2HWICallbacks.cpp:363-376 | The frame holds everything that is copied iff it holds the last row of each plane |
| `YuvPacking.PaddingIsLossless` | camera/QCamera2/HAL/QCamera2HWICallbacks.cpp:352-407 | For any good layout, packing after restoring gives the packed bytes back, padding is never touched, and restoring a frame from its own packed bytes is the identity |
| `YuvPacking.LosslessIffDisjoint` | camera/QCamera2/HAL/QCamera2HWICallbacks.cpp:352-407 | Packed bytes survive restoring iff no two rows overlap |
| `YuvPacking.GoodLayoutIsDisjoint` | camera/QCamera2/HAL/QCamera2HWICallbacks.cpp:363-376 | Strides not below widths and planes apart make all rows disjoint |
| `YuvPacking.GatherAfterScatter` | camera/QCamera2/HAL/QCamera2HWICallbacks.cpp:352-407 | Packing undoes restoring on disjoint rows |
| `YuvPacking.ScatterAfterGather` | camera/QCamera2/HAL/QCamera2HWICallbacks.cpp:352-407 | Writing a frame's own rows back changes nothing |
| `YuvPacking.ScatterKeepsPadding` | camera/QCamera2/HAL/QCamera2HWICallbacks.cpp:399-404 | Bytes outside the rows are never written |
| `YuvCrop.Yuv420spCrop` | camera/hal3on1/HAL3on1-adapter.cpp:605-637 | For any window whose reads stay inside the source and whose allocation suffices, the two loops stay within both buffers and leave the rows in a new one; for a window inside the image that is the cropped image |
| `YuvCrop.AllocationFitsIffEven` | camera/hal3on1/HAL3on1-adapter.cpp:616-619 | The allocated buffer holds what is copied iff the crop's width is even or it has no chroma row |
| `YuvCrop.CropRowsFit` | camera/hal3on1/HAL3on1-adapter.cpp:624-634 | For a window inside the source every read stays inside it, whatever the parities |
| `YuvCrop.ReadsFitIff` | camera/hal3on1/HAL3on1-adapter.cpp:624-634 | For any window: all reads stay inside the source iff those of the last row of each plane do |
| `YuvCrop.TallCropReadsPast` | camera/hal3on1/HAL3on1-adapter.cpp:1304-1311 | A stream narrower but taller than the source passes the caller's test and is read past the source's end |
| `YuvCrop.CroppedLuma` | camera/hal3on1/HAL3on1-adapter.cpp:624-628 | Every luma byte is the source's at the shifted position |
| `YuvCrop.CroppedChroma` | camera/hal3on1/HAL3on1-adapter.cpp:630-634 | Every chroma byte is the source's at the shifted column and the row offset by half |
| `YuvBytes.CropLumaInBytes` | camera/hal3on1/HAL3on1-adapter.cpp:624-628 | In bytes, for any window whose reads stay inside the source: where each luma byte comes from and goes to |
| `YuvBytes.CropChromaInBytes` | camera/hal3on1/HAL3on1-adapter.cpp:630-634 | The same for the chroma bytes, which follow the luma rows and begin at half the vertical offset |
| `YuvBytes.CropLength` | camera/hal3on1/HAL3on1-adapter.cpp:616-634 | How many bytes a crop copies |
| `YuvCrop.ColoursRightIffEvenOffsets` | camera/hal3on1/HAL3on1-adapter.cpp:605-637 | The colours of all pixels are right for every image iff both offsets are even |
| `YuvCrop.CentredCropIsRightIff` | camera/hal3on1/HAL3on1-adapter.cpp:585-595 | A centred crop has the right colours iff both margins are multiples of 4 |
| `YuvCrop.CropsComposeIff` | camera/hal3on1/HAL3on1-adapter.cpp:605-637 | Cropping a crop is one crop with the offsets added, for every image, iff not both vertical offsets are odd (or no chroma row is copied) |
| `YuvCrop.GetCropPoint` | camera/hal3on1/HAL3on1-adapter.cpp:585-595 | A centred window inside the source, with margins that differ by at most one; (0, 0) when it does not fit |

## Left out

- `/proc`, `/sys`, properties, `dlopen` and HIDL transport: their results are inputs of the model. `set_smp_affinity` is an entry in a log of requests with an arbitrary answer.
- Threads are modelled as interleaved steps over one shared state, with a lock owner and condition variables as sets of sleepers that may wake spuriously. The memory model and pthread details are not covered, nor is fairness of the scheduler, so no step is promised to happen eventually; `MultihalSystem.UndisturbedRunSettles` says that the code's own steps run out.
- Sub-HALs that fail to open (hidl/sensors/multihal.cpp:774-785) shift device indices against module indices; the model takes every module to have its device. Capacity and `maxReads` are positive and there is one poller, as Sensors.cpp ensures.
- A device's `poll` is taken to return at most the offered number of events and to write only into the offered region.
- `waitForSpace` and the outer loop of `poll` exist in the transition system only, not as methods of the classes, because a method cannot wait.
- `batch`, `flush`, `inject_sensor_data`, `fix_sensor_flags` and the guard of `lazy_init_sensors_list` are pass-through or unreachable. Of `sensor_t` the model keeps the handle and one other field.
- The list of sensors is built step by step and at any time in the transition system, before, after or between any steps of writers and `poll`, as the code allows. That `poll` reads the two maps while they are being changed is not modelled as a data race, and a lookup sees all handles issued so far. MultihalPoll.SensorsPollContext.DrainQueues is one pass with the tables as they are at its beginning.
- Fixed widths: handles, sizes, severities and frame offsets are unbounded integers. Only the 64-bit subtractions of the balancer wrap. The crop takes natural numbers, so negative sizes and offsets are left out.
- Floating point: rates, factors and temperatures are reals and truncation is `Floor`. Rounding of IEEE numbers, infinities and NaN readings are left out; a NaN threshold is an absent level.
- IrqRuns.Run: takes the readings as a sequence. A failed sleep or reading ends a run like the end of that sequence; a restart begins another run, with the list as `init` leaves it.
- IrqBalancer.Balancer.ReadInterruptActivity: takes tables, loads and active CPUs as read; parsing `/proc/interrupts` and `/proc/stat`, counter differences and decaying averages are left out. That rates are those of 64-bit counters and that unused slots have rate 0 is assumed of them.
- `qsort` is taken to sort by the comparator's key; which of several orders it picks is left open. The tables of a CPU are values inside the array of CPUs, and the fields the algorithms never read are left out.
- IrqBalancer.FindMove: works on copies of the arrays, which it does not change, where the code reads the arrays in place.
- ThermalWatcher.Watcher.OnWatch: takes the readings of a round as a map from sensors to values, so a sensor read twice in one round (by a binder call in between) is not modelled; the locks around the status map are left out.
- ThermalCallbacks.Thermal.SendThermalChangedCallback: says what each listener is called with and in which order, but not in which order different listeners are called.
- Debug output, dump functions, cooling devices and CPU usages only forward data.
- The parser of the thermal configuration and its ordering checks are not modelled; what they guarantee is the predicate `Ordered`.
- CameraParametersModel.CameraParameters.Set: the `KeyedVector` is a sequence sorted by key, with insertion and removal at the key's place; its binary search and the C strings' terminating zero are not modelled. `setInt`, `setFloat`, `getInt`, `getFloat`, `parse_pair` and `parseSizesList` are left out, as they add number formatting only.
- YuvPacking.YuvDataRelocate: source and destination are different arrays and the layout fits them, as the callers arrange.
- YuvCrop.Yuv420spCrop: requires that its reads stay inside the source and that the allocated buffer is large enough, for any window. Outside these conditions, which `YuvCrop.ReadsFitIff` and `YuvCrop.AllocationFitsIffEven` characterise, the code reads or writes past a buffer, and what it leaves there is not described.
- `parse_pair`, `nv21_to_nv12`, the HAL3on1 handshakes and request handling, QCamera2's queues and state machines, radio, vibrator, lights and the sensor register tables are outside the model.

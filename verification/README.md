# Verified models of oveRTOS

oveRTOS is a C runtime that gives applications one API over several RTOS kernels. This project models
the parts of it whose correctness is hardest to see from the code and proves what they are for: lock-free
protocols under every interleaving, allocators and graphs over every sequence of calls, wire formats and
loaders over every input.

| file | what it models |
|---|---|
| `Arith.dfy`, `Common.dfy` | facts about division and remainders, and the types and machine operations the other modules share |
| `ProfilerRing.dfy` | the multi-producer single-consumer sample ring of the profiler, step by atomic step |
| `ArenaSpec.dfy`, `ArenaRuns.dfy`, `ArenaMemory.dfy`, `Arena.dfy` | the arena allocator: block lists as values, whole runs over them, the headers in memory, and the C functions as methods of a class proved against the values |
| `TopoSort.dfy`, `AudioGraph.dfy` | the audio graph: ordering, format propagation, buffer layout and one processing cycle |
| `RtScope.dfy`, `RtMetrics.dfy` | the real-time scope: its two sequence locks under every interleaving, the release counter, the histogram and its percentiles |
| `LoaderLayout.dfy`, `ThumbReloc.dfy`, `Loader.dfy` | the module loader: section placement, Thumb-2 branch relocation and veneers, and the two one after the other |
| `FatFile.dfy`, `BlockBytes.dfy` | file positions over FatFs, positional access, and byte access over whole sectors |
| `MqttTopic.dfy`, `MqttFrame.dfy` | MQTT topic filters, Remaining Length, packet delimiting, PUBLISH |
| `MediaOwner.dfy` | the ownership word of removable media under every interleaving |
| `TokenBucket.dfy` | the token bucket of the Ethernet receive task |
| `PowerManager.dfy` | the power manager's state times, transition counts and percentages |

Concurrent code is a step system: one step per atomic access, any number of threads, any order. The three
step systems (`ProfilerRing`, `RtScope`, `MediaOwner`) have one shape: a `State`, a `Step`, `Enabled` and `Do`;
`ValidRun` and `Exec` over sequences of steps; an invariant `Inv` that `StepKeeps` and `RunKeeps` carry along;
and `RunSplits`, which takes off the last step. Code that
changes objects in place is a class or a method on arrays, proved against functions on values, and the
properties are then lemmas about those functions. Widths that matter are written out (`% WORD` is 32 bits,
`% DWORD` is 64 bits). Clocks, devices, callbacks and hardware answers are parameters or unconstrained
choices; atomic accesses are taken as sequentially consistent.

## Where the code and its own words differ

The model follows the code.

- Ring header (`backends/common/ove_profiler_ring.h:51-54`): drops are said to happen only on a genuinely
  full ring. A producer that loads the write index before others push and the consumer drains refuses on an
  empty ring (`RefusesOnEmptyRing`); `RefusalMeans` says exactly when, and `RefusedWhenFullOrPassed` that in
  every other case the ring really was full.
- Ring size (`config/Config.in.debug:142-149`): any size is allowed, but slots stay consecutive across the wrap
  of the 32-bit index exactly for sizes that divide 2^32 (`SizeMustDivide`).
- Arena rounding: a request within 15 bytes of the top of `size_t` rounds to zero and gets an empty block
  (`HugeRequestGetsEmptyBlock`, `LargeEnoughIffNoWrap`).
- Arena free: the bytes before an address that is no block's are taken for a header. Freeing such an address is
  harmless to the accounting if and only if they do not look like an allocated block (`StrayFreeHarmlessIff`).
  A reset leaves such bytes in front of every allocated block but the first (`StaleAfterReset`), and freeing one of
  these afterwards wraps the count (`StaleFreeWraps`).
- Audio buffer size (`backends/common/ove_audio_graph.c:13-16`): the 64-bit product is said not to wrap; it can
  (`ByteSizeCanWrap`, `ByteSizeExactIff`).
- Loader header (`include/ove/loader.h:35`): Thumb-2 relocations are said to be missing; they are implemented and modelled.
- Loader alignment: `sh_addralign` is not checked, so a section can be placed over another
  (`UncheckedAlignmentOverlaps`). The sections come out in table order without overlap if and only if no
  rounding along the way wraps (`PlacedInOrderIff`); a wrapped one may also fall into a gap (`WrappedIntoGap`).
- Loader veneers: the distance to a veneer is not checked again, and the addend stays in it. In a region of at
  most 16 MB a branch sent to a veneer lands on it if and only if its addend is -4
  (`OnVeneerIffStandardAddend`); with addend 0 it lands on the literal (`ZeroAddendMissesVeneer`).
- Topic filters (`backends/common/ove_mqtt_topic.c:11-16`): a `#` that is not last is said to be ordinary, yet
  `a/#b` matches `a` (`MisplacedHashMatches`). It is ordinary on all topics if and only if no `/#` with something
  behind it stands where a topic can end (`HashOrdinaryIff`, `InnerOfPlain`).
- Topic filters and section 4.7 of MQTT 3.1.1: `+` does not match an empty last level, and a filter that begins
  with a wildcard also matches topics that begin with `$`. `FilterConformsIff` and `TopicConformsIff` say exactly
  which filters and which topics are matched as the standard says.
- MQTT publish: a null payload with a nonzero length sends a frame shorter than it declares
  (`NullPayloadNotDelimited`), and a transmit buffer above 256 MB lets through a length no receiver can decode
  (`OversizeNotDelimited`). `SentDelimitedIff` says exactly when the frame is read back as one packet.
- Positional write on a file opened for appending goes to the end, not to the offset (`PWrite`,
  `AppendMissesOffset`). It leaves what a write at the offset would leave if and only if there is no data or the
  offset is not before the end (`AppendAtOffsetIff`).
- Positional access on a target whose `FSIZE_t` is wider than `long`: a position that `long` cannot hold may be
  put back converted (`PRead`, `PositionMisread`), and a size that `size_t` cannot hold may make a write cut the
  tail of the file, exactly as `PreparedExactIff` says.
- Scope snapshot (`backends/common/lxp_ove_rt_scope.c:478-504`): `continue` in a `do`-`while` jumps to the
  condition, not to the top. The loop repeats all the same, because an odd first reading fails the condition
  whatever the second one holds; the model uses this.
- Power statistics: the active share is exact exactly while the product fits 64 bits
  (`PctExactIff`, `PctWraps`).

## Model

| member | source | states |
|---|---|---|
| ProfilerRing.DeliveryIsReservationOrder | backends/common/ove_profiler_ring.c:52-98 | in every interleaving the consumer has received exactly the first reservations, in order, each whole and only after its push finished |
| ProfilerRing.NoSlotShared | backends/common/ove_profiler_ring.c:55-74 | in every interleaving no two producers at work share a physical slot, none fills a slot the consumer has not released, and the indices stay within one lap |
| ProfilerRing.PushesConserved | backends/common/ove_profiler_ring.c:52-103 | every push that returned true is delivered or waiting committed in the ring, every push that returned false is counted as dropped or in a harvested drop count; the two counts are those of the returns in the run |
| ProfilerRing.EveryCallAnswered | backends/common/ove_profiler_ring.c:52-76 | in every interleaving each push of each thread has returned true, returned false, or is still inside with its own sample; a retry loses none |
| ProfilerRing.OutcomesCounted | backends/common/ove_profiler_ring.c:52-76 | in every interleaving the published reservations are exactly as many as the pushes that returned true, the drops as many as those that returned false |
| ProfilerRing.HarvestReturns | backends/common/ove_profiler_ring.c:58-103 | in every interleaving the drop count can be read and is the number of pushes refused since it was last read, on 32 bits |
| ProfilerRing.CommitsOwnSample | backends/common/ove_profiler_ring.c:70-75 | a push about to return true publishes one reservation of its own, holding the sample it was called with |
| ProfilerRing.SoloPush | backends/common/ove_profiler_ring.c:52-68 | run without interference, a push reserves the next slot if the ring has room and is refused if it is full |
| ProfilerRing.SoloDrain | backends/common/ove_profiler_ring.c:78-98 | run without interference, a drain hands over every committed sample up to the first gap, the write index or its limit, whole, in order, right after those handed over before |
| ProfilerRing.DrainReturnsNextStretch | backends/common/ove_profiler_ring.c:78-98 | one drain hands out the next stretch of reservations and publishes exactly that stretch |
| ProfilerRing.DrainStopsIff | backends/common/ove_profiler_ring.c:83-89 | in every reachable state the drain loop stops if and only if it has reached the loaded write index, its limit, or a reservation whose push has not finished |
| ProfilerRing.SizeMustDivide | backends/common/ove_profiler_ring.c:18-22 | consecutive reservations use consecutive slots across the index wrap if and only if the size divides 2^32 |
| ProfilerRing.LooksFullMeans | backends/common/ove_profiler_ring.c:57-61 | the wrapped fullness test holds if and only if the ring was full or the read index had passed the loaded write index |
| ProfilerRing.RefusalMeans | backends/common/ove_profiler_ring.c:56-61 | in every reachable state a refusal happens if and only if the ring was full at the loaded index or the consumer went past it between the two loads |
| ProfilerRing.RefusedWhenFullOrPassed | backends/common/ove_profiler_ring.c:56-61 | in every interleaving a refused push loaded the read index in a state in which the ring was genuinely full, or had been passed by the consumer |
| ProfilerRing.RefusesOnEmptyRing | backends/common/ove_profiler_ring.h:51-54 | a reachable state in which a push is refused although the ring is empty |
| ProfilerRing.CasKeeps | backends/common/ove_profiler_ring.c:65-67 | a successful compare-and-swap on a stale index still reserves a free slot; a failed one changes nothing shared and the push stays inside (`EveryCallAnswered`) |
| ProfilerRing.OwnSlot | backends/common/ove_profiler_ring.c:70-74 | the slot being filled belongs to no other reservation of the current lap |
| ProfilerRing.FillKeeps | backends/common/ove_profiler_ring.c:71-71 | a sample copied in two halves keeps every other slot and is never visible half written |
| ProfilerRing.CommitKeeps | backends/common/ove_profiler_ring.c:74-75 | setting the commit byte publishes exactly the filled reservation and keeps the invariant |
| ProfilerRing.DrainTestKeeps | backends/common/ove_profiler_ring.c:83-89 | the drain goes on only over a committed next reservation |
| ProfilerRing.DrainCopyKeeps | backends/common/ove_profiler_ring.c:90-90 | the copied sample is the whole next reservation |
| ProfilerRing.DrainClearKeeps | backends/common/ove_profiler_ring.c:93-94 | clearing the commit byte before publishing lets no producer in early |
| ProfilerRing.DrainPublishKeeps | backends/common/ove_profiler_ring.c:96-97 | publishing the read index opens exactly the drained slots for the next lap |
| ProfilerRing.RefuseKeeps | backends/common/ove_profiler_ring.c:58-61 | a refused push keeps the invariant, counts one drop, leaves, and changes nothing else |
| ProfilerRing.StepKeeps | backends/common/ove_profiler_ring.c:52-103 | every atomic step of every thread keeps the ring invariant |
| ProfilerRing.RunKeeps | backends/common/ove_profiler_ring.c:52-103 | every run from a good state ends in a good state |
| ArenaRuns.EveryRunTiles | backends/common/ove_arena.c:56-172 | after any sequence of alloc, free and reset with any arguments, the blocks tile the region, no two neighbours are free, `used` is the live footprint and `high_water` its maximum |
| ArenaRuns.AllocExact | backends/common/ove_arena.c:89-122 | allocation fails if and only if no free block is large enough; otherwise it is the first that fits, adds one live block of at least the size asked for and leaves the others |
| ArenaRuns.AllocTight | backends/common/ove_arena.c:96-121 | the block granted is the first free one that can hold the request, keeps less than a header and two alignment units beyond it, and gives the rest back as a free block |
| ArenaRuns.LargeEnoughIffNoWrap | backends/common/ove_arena.c:41-44 | a granted block is as large as asked for if and only if rounding the size does not wrap |
| ArenaRuns.HugeRequestGetsEmptyBlock | backends/common/ove_arena.c:94-94 | a 32-bit arena grants an empty block for a request of 2^32 - 1 bytes |
| ArenaRuns.FreeingAllRecovers | backends/common/ove_arena.c:134-165 | freeing every live block, in any order, with repeats and strays, restores the single fresh block |
| ArenaRuns.FreeRemoves | backends/common/ove_arena.c:134-165 | freeing an address removes it and nothing else from the live ones |
| ArenaRuns.FreeAllRemoves | backends/common/ove_arena.c:134-165 | freeing a sequence of addresses removes exactly those |
| ArenaRuns.DoubleFreeIgnored | backends/common/ove_arena.c:139-141 | freeing again changes nothing, whatever was freed in between |
| ArenaRuns.ResetEmpties | backends/common/ove_arena.c:167-172 | after a reset nothing is live, `used` is zero and one free block spans the region |
| ArenaRuns.AllocKeeps | backends/common/ove_arena.c:89-122 | allocation keeps the tiling, the coalescing and the accounting |
| ArenaRuns.FreeKeeps | backends/common/ove_arena.c:134-165 | freeing keeps the tiling, the coalescing and the accounting |
| ArenaRuns.RunKeeps | backends/common/ove_arena.c:56-172 | over any run the invariant holds and the high-water mark is the peak |
| ArenaSpec.BlocksDisjoint | backends/common/ove_arena.c:46-54 | any two blocks of a tiled region are disjoint |
| ArenaSpec.TakeTiles | backends/common/ove_arena.c:103-115 | splitting keeps the tiling |
| ArenaSpec.TakeLive | backends/common/ove_arena.c:103-121 | exactly one live block is added |
| ArenaSpec.TakeNoFreePair | backends/common/ove_arena.c:103-115 | splitting never leaves two free neighbours |
| ArenaSpec.GiveKeeps | backends/common/ove_arena.c:143-164 | marking and coalescing remove exactly one live block and keep the tiling |
| ArenaSpec.GiveNoFreePair | backends/common/ove_arena.c:147-164 | one forward and one backward merge are enough to leave no two free neighbours |
| ArenaMemory.SplitStored | backends/common/ove_arena.c:103-115 | the header stores of a split yield the linked list of the split blocks, `next` and `prev` inverse |
| ArenaMemory.AbsorbStored | backends/common/ove_arena.c:147-164 | the header stores of a merge yield the linked list of the merged blocks, the old header keeping a cleared magic word |
| ArenaMemory.MarkStored | backends/common/ove_arena.c:117-117 | setting the free flag changes that block alone |
| Arena.AdjustIs | backends/common/ove_arena.c:73-80 | the rounded start is the padded address whether or not the rounding wraps |
| Arena.Arena.LayFirst | backends/common/ove_arena.c:56-66 | lays one free block over the region |
| Arena.Arena.Init | backends/common/ove_arena.c:68-87 | succeeds if and only if an aligned header and a minimum slot fit; the blocks then cover all but less than one alignment unit of the buffer; a failed call changes nothing |
| Arena.Arena.Walk | backends/common/ove_arena.c:96-100 | following `next` finds the first free block that fits |
| Arena.Arena.Cut | backends/common/ove_arena.c:103-115 | the stores of a split, in memory and in the block list |
| Arena.Arena.Alloc | backends/common/ove_arena.c:89-122 | the loop and stores over headers refine allocation on block lists, and the result is aligned |
| Arena.Arena.Absorb | backends/common/ove_arena.c:147-164 | a block swallows its successor, in memory and in the block list |
| Arena.Arena.Coalesce | backends/common/ove_arena.c:147-164 | forward then backward merging, in memory and in the block list |
| Arena.Arena.Free | backends/common/ove_arena.c:134-165 | refines freeing on block lists; null, foreign, free and merged-away addresses change nothing, nor do addresses in client data unless the bytes before them look like an allocated block |
| Arena.Arena.ResetAll | backends/common/ove_arena.c:167-172 | returns an initialised arena to the fresh block list |
| Arena.Arena.Run | backends/common/ove_arena.c:89-172 | any sequence of alloc, free and reset with any arguments, on headers in memory, follows the block lists call by call, so the results on lists hold of the code |
| Arena.StrayFreeHarmlessIff | backends/common/ove_arena.c:139-144 | freeing an address that is no block keeps the accounting if and only if the bytes before it do not look like an allocated block of some size |
| Arena.StaleAfterReset | backends/common/ove_arena.c:56-66 | after a reset the bytes of every formerly allocated block but the first still look like one, at an address the arena does not know |
| Arena.StaleFreeWraps | backends/common/ove_arena.c:139-144 | a 16-byte block freed after a reset takes the count of a 32-bit arena below zero |
| TopoSort.Sort | backends/common/ove_audio_graph.c:153-183 | succeeds if and only if the edges have no cycle, and then gives every node once after all that feed it |
| TopoSort.CountDegrees | backends/common/ove_audio_graph.c:155-160 | the in-degrees are the numbers of edges into each node |
| TopoSort.SeedQueue | backends/common/ove_audio_graph.c:162-165 | the queue starts with exactly the nodes nothing feeds |
| TopoSort.Release | backends/common/ove_audio_graph.c:168-180 | releasing a node's edges keeps the degrees and queues exactly the nodes that reach zero |
| TopoSort.StillCounted | backends/common/ove_audio_graph.c:172-178 | an edge about to be released is still counted, so a degree never goes below zero, parallel edges included |
| TopoSort.TopologicalIsAcyclic | backends/common/ove_audio_graph.c:182-182 | an order with every edge forward rules out every cycle |
| TopoSort.StuckHasCycle | backends/common/ove_audio_graph.c:182-182 | nodes left over when the queue runs dry contain a real cycle |
| TopoSort.LeftoverStuck | backends/common/ove_audio_graph.c:168-182 | every leftover node is fed by a leftover node |
| AudioGraph.FindUpstream | backends/common/ove_audio_graph.c:22-29 | finds the source of the first edge into a node, or none |
| AudioGraph.Graph.AddNode | backends/common/ove_audio_graph.c:94-115 | accepts a node if and only if the graph is idle and not full |
| AudioGraph.Graph.Connect | backends/common/ove_audio_graph.c:117-149 | accepts exactly the edges that keep one input per node and run from non-sinks to non-sources |
| AudioGraph.Graph.Propagate | backends/common/ove_audio_graph.c:199-218 | succeeds if and only if every node accepts the final format of its upstream |
| AudioGraph.ConfiguredWith | backends/common/ove_audio_graph.c:199-218 | the format a node is configured with is the final format of the one node connected to it, and none for a node nothing feeds |
| AudioGraph.Graph.CheckFormats | backends/common/ove_audio_graph.c:220-227 | passes if and only if every non-sink has a usable format |
| AudioGraph.Graph.CheckRates | backends/common/ove_audio_graph.c:229-238 | passes if and only if the rates agree along every edge between non-sinks |
| AudioGraph.Graph.SizeBuffers | backends/common/ove_audio_graph.c:240-254 | the running sum never wraps and gives each buffer's offset, or refuses exactly when the total does not fit `size_t` |
| AudioGraph.Graph.Place | backends/common/ove_audio_graph.c:240-287 | succeeds if and only if the buffers fit the storage available, and zeroes them |
| AudioGraph.Graph.Build | backends/common/ove_audio_graph.c:187-288 | succeeds if and only if the graph is idle, acyclic, its formats are accepted and usable, its rates agree and its buffers fit |
| AudioGraph.Graph.RunNode | backends/common/ove_audio_graph.c:302-326 | one node reads its upstream's fresh buffer and writes its own buffer only; a failure is counted once and leaves zeros |
| AudioGraph.Graph.RunAll | backends/common/ove_audio_graph.c:302-328 | the loop of a cycle runs every node once, in order, and counts each failure |
| AudioGraph.Graph.Process | backends/common/ove_audio_graph.c:292-344 | one cycle runs every node once, in order, and leaves the solution of the dataflow equations: each buffer is byte for byte what its node answered, and all zeros if it failed; cycles and node errors go up by one cycle and by the failures |
| AudioGraph.DataflowUnique | backends/common/ove_audio_graph.c:301-330 | the equations of a cycle have one solution, whatever the buffers held before |
| AudioGraph.CycleComplete | backends/common/ove_audio_graph.c:301-330 | once every node has run, the record of the cycle is the equations |
| AudioGraph.DataflowBytes | backends/common/ove_audio_graph.c:318-325 | in the solution of the equations the buffer of a node that failed is zero in every byte, and that of another holds its answer |
| AudioGraph.InputsWired | backends/common/ove_audio_graph.c:309-313 | each connected node is handed exactly the buffer of the node connected to it, an unconnected one nothing |
| AudioGraph.RunNext | backends/common/ove_audio_graph.c:302-326 | a later node never disturbs what earlier nodes read or wrote |
| AudioGraph.BuffersDisjoint | backends/common/ove_audio_graph.c:256-284 | the output buffers are disjoint and inside the storage |
| AudioGraph.OneRateDownstream | backends/common/ove_audio_graph.c:229-238 | every non-sink reached along edges runs at the rate of the first |
| AudioGraph.ByteSizeExactIff | backends/common/ove_audio_graph.c:17-20 | the 64-bit size is the true size, with 2, 4 and 4 bytes to a sample, if and only if the product is below 2^64 |
| AudioGraph.ByteSizeCanWrap | backends/common/ove_audio_graph.c:13-20 | a format and period for which the size comes out as zero |
| RtScope.SnapshotBalances | backends/common/lxp_ove_rt_scope.c:470-523 | in every interleaving an accepted snapshot balances: releases (those of `ReleasesAreServed`) are executions plus reported misses plus at most one pending, and the copied counts agree |
| RtScope.ReleasesAreServed | backends/common/lxp_ove_rt_scope.c:124-137 | in every interleaving the release count is the sum of the periods the interrupts told of, less those an interrupt still inside has not added |
| RtScope.SnapshotCountsServed | backends/common/lxp_ove_rt_scope.c:470-504 | the releases of an accepted snapshot are exactly the periods the interrupts told of up to one instant between two interrupts |
| RtScope.SoloSnapshot | backends/common/lxp_ove_rt_scope.c:478-504 | run without interference, the reader accepts at the first attempt and returns the present counts |
| RtScope.SnapshotIsOneInstant | backends/common/lxp_ove_rt_scope.c:478-504 | in every interleaving some one state of the run, between two records and between two interrupts, has the release count and all the totals of the snapshot |
| RtScope.SampleIsOneRelease | backends/common/lxp_ove_rt_scope.c:219-262 | in every interleaving the response thread pairs a release count only with that release's attribution, and its miss count never wraps |
| RtScope.SampleWasTold | backends/common/lxp_ove_rt_scope.c:219-232 | the attribution the response thread works with is one an interrupt was given |
| RtScope.WorksIffNew | backends/common/lxp_ove_rt_scope.c:233-236 | the response thread records an execution if and only if a release came since the last one, and counts all between as missed |
| RtScope.FoldBalances | backends/common/lxp_ove_rt_scope.c:509-514 | folding the backlog keeps the balance on 32-bit words |
| RtScope.FoldSaturates | backends/common/lxp_ove_rt_scope.c:509-514 | the reported misses are the recorded ones plus all pending releases but the newest, held at the largest word |
| RtScope.IsrKeeps | backends/common/lxp_ove_rt_scope.c:124-137 | each store of the interrupt keeps the invariant, and the count moves by the periods told of (`ReleasesAreServed`) |
| RtScope.RecordKeeps | backends/common/lxp_ove_rt_scope.c:192-200 | each store of a record keeps the invariant |
| RtScope.ReadKeeps | backends/common/lxp_ove_rt_scope.c:479-503 | what the reader has loaded is current for as long as the generation has not moved |
| RtScope.StepKeeps | backends/common/lxp_ove_rt_scope.c:101-262 | every step of interrupt, response thread and reader keeps the invariant |
| RtScope.RunKeeps | backends/common/lxp_ove_rt_scope.c:101-523 | every run from a good state ends in a good state |
| RtMetrics.Timer.constructor | backends/common/lxp_ove_rt_scope.c:779-779 | the timer starts one period before the first release |
| RtMetrics.Timer.Update | backends/common/lxp_ove_rt_scope.c:101-137 | for any reading the count moves on and stays consistent with time base and overruns; it moves to exactly the release served, however many were collapsed, across timer wraps and with jitter below half a period, and the error does not accumulate |
| RtMetrics.RoundsTo | backends/common/lxp_ove_rt_scope.c:109-114 | rounding to the nearest period absorbs any error below half of one |
| RtMetrics.HistogramBin | backends/common/lxp_ove_rt_scope.c:144-151 | the first bin whose edge is not exceeded, or the last |
| RtMetrics.CumulativeCounts | backends/common/lxp_ove_rt_scope.c:144-181 | the first n bins together count exactly the samples up to the n-th edge |
| RtMetrics.Metrics.Add | backends/common/lxp_ove_rt_scope.c:153-181 | counts, misses, sums, extremes, lock owner and histogram remain those of all executions added, as far as 32-bit counters and a 64-bit sum hold them |
| RtMetrics.Metrics.Extremes | backends/common/lxp_ove_rt_scope.c:153-181 | the kept extremes are attained by some execution added and exceeded by none |
| RtMetrics.Metrics.Percentile | backends/common/lxp_ove_rt_scope.c:443-454 | until the 32-bit counters wrap, the smallest table bound whose bins hold the share asked for |
| RtMetrics.PercentileMeans | backends/common/lxp_ove_rt_scope.c:443-454 | at least that share of the samples is at most the bound, and not at the next smaller bound |
| ThumbReloc.EncodeRoundTrip | loader/ove_loader.c:431-453 | re-encoding an even displacement within reach decodes to exactly that displacement |
| ThumbReloc.EncodeKeepsLow | loader/ove_loader.c:446-453 | re-encoding any even displacement, in reach or not, decodes to its low 25 bits sign-extended |
| ThumbReloc.EncodeKeepsOpcode | loader/ove_loader.c:446-453 | re-encoding touches no opcode bit |
| ThumbReloc.KnownBranches | loader/ove_loader.c:420-431 | three branches encoded by hand from the ARMv7-M manual decode to their offsets |
| ThumbReloc.InReachIff | loader/ove_loader.c:440-440 | the reach test passes exactly the even displacements that the 25 bits of the encoding can hold |
| ThumbReloc.PatchLands | loader/ove_loader.c:420-457 | a patched branch lands at its target moved by addend plus four |
| ThumbReloc.VeneerWorks | loader/ove_loader.c:363-376 | the eight bytes of a veneer transfer control to its target |
| ThumbReloc.VeneerInReach | loader/ove_loader.c:440-445 | in a region of at most 16 MB every veneer is within reach of every place |
| ThumbReloc.OnVeneerIffStandardAddend | loader/ove_loader.c:440-445 | in a region of at most 16 MB, a branch with any addend that is patched towards a veneer lands on it if and only if the addend is -4 |
| ThumbReloc.ZeroAddendMissesVeneer | loader/ove_loader.c:440-445 | a call with addend 0 and a far target that lands on the literal of its veneer |
| ThumbReloc.StillArrives | loader/ove_loader.c:525-545 | a later relocation leaves an earlier branch and its veneer intact |
| ThumbReloc.Module.Veneer | loader/ove_loader.c:355-376 | appends a working veneer, or refuses exactly when the tail is too short |
| ThumbReloc.Module.Branch | loader/ove_loader.c:420-457 | fails if and only if a veneer is needed and does not fit; changes only the place and a new veneer; direct, it lands at the even target moved by addend plus four; through the veneer, it lands there if and only if the addend is -4 |
| ThumbReloc.Module.Relocate | loader/ove_loader.c:525-545 | succeeds whenever the tail can hold eleven bytes per relocation; after it every standard branch reaches its own even target, the veneers lie one behind the other behind the loaded part, and only places have changed below it |
| Loader.Load | loader/ove_loader.c:484-545 | placement then relocation: succeeds when the placement does and its tail can hold eleven bytes per relocation; when no rounding wraps, every section is in the region as the file has it but for the relocated places, and all veneers lie behind every section |
| LoaderLayout.PlaceSections | loader/ove_loader.c:484-521 | the loop makes the placement decisions, and when no rounding along the way wraps every placed section still holds its bytes at the end and lies below `used` |
| LoaderLayout.Fill | loader/ove_loader.c:494-501 | a section's bytes are copied or zeroed and nothing else is touched |
| LoaderLayout.PlacedInside | loader/ove_loader.c:484-521 | exactly the sections that occupy memory, are not empty and have a loadable kind are placed, each inside the region, whatever the alignments |
| LoaderLayout.FailsIff | loader/ove_loader.c:488-501 | the placement runs out of memory if and only if some section finds no room at the offset reached, and is refused if and only if some section finds its bytes outside the file |
| LoaderLayout.PlacedInOrderIff | loader/ove_loader.c:484-521 | the placed sections follow one another in table order without overlap if and only if no rounding along the running offset wraps |
| LoaderLayout.UsedIsBehind | loader/ove_loader.c:503-521 | under that condition `used` is behind every placed section and inside the region |
| LoaderLayout.PlacedAscending | loader/ove_loader.c:484-521 | with power-of-two alignments in at most 2 GB the sections are in order without overlap and `used` is behind them all |
| LoaderLayout.PlacedAligned | loader/ove_loader.c:490-491 | power-of-two alignments are honoured |
| LoaderLayout.Pow2NeverWraps | loader/ove_loader.c:490-491 | power-of-two alignments in at most 2 GB never wrap |
| LoaderLayout.AlignUpIff | loader/ove_loader.c:490-491 | rounding up stays at or above the offset if and only if the addition does not wrap |
| LoaderLayout.AlignUpLeast | loader/ove_loader.c:490-491 | rounding up gives the least multiple of a power of two that is not below the offset |
| LoaderLayout.OutOfBoundsMeans | loader/ove_loader.c:257-263 | the subtractive bounds test is the true sum comparison |
| LoaderLayout.UncheckedAlignmentOverlaps | loader/ove_loader.c:490-503 | a section table for which one section is placed over another |
| LoaderLayout.WrappedIntoGap | loader/ove_loader.c:490-503 | a section table whose wrapped section is out of order without overlapping |
| FatFile.OveFile.constructor | backends/freertos/freertos_fs.c:167-171 | the position starts at the end when appending and at zero otherwise |
| FatFile.OveFile.PositionCursor | backends/freertos/freertos_fs.c:35-41 | moves the native cursor to the position and never changes the file |
| FatFile.OveFile.ExtendZeroFilled | backends/freertos/freertos_fs.c:43-62 | grows the file with zeros in chunks; a failure leaves a zero-filled part |
| FatFile.OveFile.Read | backends/freertos/freertos_fs.c:383-409 | a read of the plain file at the position; it succeeds on a healthy medium, and a failure keeps position and contents |
| FatFile.OveFile.Write | backends/freertos/freertos_fs.c:411-435 | a write at the position, or the end when appending, with zeros in any gap; it is whole on a healthy medium with a representable end, and a failure touches only gap and target range |
| FatFile.OveFile.Seek | backends/freertos/freertos_fs.c:461-498 | succeeds if and only if base plus offset is a representable position; the 64-bit sum is caught when it wraps |
| FatFile.OveFile.Tell | backends/freertos/freertos_fs.c:500-503 | the position converted to `long`, which is the position if and only if `long` can hold it |
| FatFile.OveFile.Truncate | backends/freertos/freertos_fs.c:624-640 | cuts or extends with zeros and leaves the position; it succeeds on a healthy medium; a failed call has cut, or filled part of the gap, or done nothing |
| FatFile.OveFile.PRead | backends/common/lxp_ove_storage_adapter.c:658-701 | reads at the offset and never changes the contents; the position is as before if and only if it was not misread |
| FatFile.OveFile.PWrite | backends/common/lxp_ove_storage_adapter.c:658-701 | writes at the offset, or at the end of an appending file, from the prepared contents; a failed call has touched only gap and target range; the position is as before unless it was misread |
| FatFile.AppendAtOffsetIff | backends/freertos/freertos_fs.c:411-435 | on an appending file the positional write leaves what a write at the offset would leave if and only if there is no data or the offset is not before the end |
| FatFile.AppendMissesOffset | backends/freertos/freertos_fs.c:416-418 | one byte written at offset 0 of a two-byte appending file ends up at the end |
| FatFile.PreparedExactIff | backends/common/lxp_ove_storage_adapter.c:675-686 | the positional write is the write at the offset if and only if the size is not read wrapped below the offset with the file going on behind the data |
| FatFile.PositionMisread | backends/freertos/freertos_fs.c:500-503 | a file position that a 32-bit `long` takes for zero |
| FatFile.OveFile.Run | backends/freertos/freertos_fs.c:383-640 | every sequence of calls refines a plain byte file with a position |
| FatFile.RepresentableMeans | backends/freertos/freertos_fs.c:35-41 | the cast test is the range test |
| FatFile.ReadBack | backends/freertos/freertos_fs.c:383-435 | what was written at a position is read back there |
| FatFile.WritesJoin | backends/freertos/freertos_fs.c:411-435 | two writes one after the other are one write of both pieces |
| FatFile.ReadsJoin | backends/freertos/freertos_fs.c:383-409 | two reads one after the other are one read of both lengths |
| FatFile.SeekBases | backends/freertos/freertos_fs.c:461-478 | a seek counts from zero, the position or the end, as asked |
| FatFile.TruncateMeans | backends/freertos/freertos_fs.c:624-640 | the truncated file has the length asked for, keeps its bytes below it, is zero where it grew, and the position stays |
| FatFile.GapReadsZero | backends/freertos/freertos_fs.c:43-62 | the gap left by writing past the end reads as zeros |
| BlockBytes.Adapter.Bounds | backends/common/lxp_ove_storage_adapter.c:327-356 | accepts a range if and only if the device reports a usable geometry and the range lies inside it |
| BlockBytes.Adapter.ReadBytes | backends/common/lxp_ove_storage_adapter.c:358-397 | on a healthy device succeeds if and only if the range is accepted; a successful read of any unaligned range is the slice of the device image |
| BlockBytes.Adapter.WriteBytes | backends/common/lxp_ove_storage_adapter.c:399-432 | on a healthy device succeeds if and only if the range is accepted; a successful write splices the data into the image; an early stop has spliced in a first part and nothing else |
| BlockBytes.ChunkIsSlice | backends/common/lxp_ove_storage_adapter.c:373-385 | a chunk cut from its sector is the slice of the image |
| BlockBytes.ImageIsFlat | backends/common/lxp_ove_storage_adapter.c:373-385 | the device image is the sectors one behind the other |
| BlockBytes.ChunkIsSplice | backends/common/lxp_ove_storage_adapter.c:408-422 | replacing a chunk in its sector is splicing the image |
| BlockBytes.SpliceOn | backends/common/lxp_ove_storage_adapter.c:408-430 | chunk after chunk makes one splice |
| BlockBytes.QuotientTest | backends/common/lxp_ove_storage_adapter.c:344-356 | the division test for overflow is the product comparison |
| MqttTopic.Matches | backends/common/ove_mqtt_topic.c:22-54 | the two-index loop computes the scan |
| MqttTopic.AnyMatches | backends/common/ove_net_mqtt.c:136-149 | a topic is accepted if and only if no filter is stored or some stored filter matches it |
| MqttTopic.ScanIsLevelMatch | backends/common/ove_mqtt_topic.c:22-54 | for every well-formed filter and every topic the scan is the level match of section 4.7.1 of MQTT 3.1.1, except for `+` on an empty last level |
| MqttTopic.FilterConformsIff | backends/common/ove_mqtt_topic.c:22-54 | a well-formed filter matches all topics as section 4.7 says, the `$` rule included, if and only if it does not begin with a wildcard and does not end in `+` or `+/#` |
| MqttTopic.TopicConformsIff | backends/common/ove_mqtt_topic.c:22-54 | a topic is matched as section 4.7 says by all well-formed filters if and only if it does not begin with `$` and its last level is not empty |
| MqttTopic.HashOrdinaryIff | backends/common/ove_mqtt_topic.c:11-54 | for every filter, a `#` that is not alone and last is ordinary on all topics if and only if no `/#` with something behind it stands where a topic can end |
| MqttTopic.InnerOfPlain | backends/common/ove_mqtt_topic.c:46-47 | where every `+` ends its level, that means: `/#` occurs with something behind it |
| MqttTopic.MisplacedHashMatches | backends/common/ove_mqtt_topic.c:46-47 | the filter `a/#b` matches `a` although its `#` is not last |
| MqttFrame.EncodeRemainingLength | backends/common/ove_net_mqtt.c:64-75 | writes exactly the encoded length and nothing else |
| MqttFrame.RemainingLengthBytes | backends/common/ove_net_mqtt.c:77-87 | counts exactly the bytes the encoder writes |
| MqttFrame.StandardLengths | backends/common/ove_net_mqtt.c:64-75 | the length bytes of 64, 321 and 268435455 are those of section 2.2.3 of MQTT 3.1.1 |
| MqttFrame.DecodeRemainingLength | backends/common/ove_net_mqtt.c:96-116 | the accumulating loop decodes at most four bytes, or refuses |
| MqttFrame.LenRoundTrip | backends/common/ove_net_mqtt.c:64-116 | decoding an encoded length gives it back and its byte count, whatever follows; longer fields are refused |
| MqttFrame.LengthSurvivesIff | backends/common/ove_net_mqtt.c:64-116 | a length survives if and only if it is at most 268435455 |
| MqttFrame.PacketDelimited | backends/common/ove_net_mqtt.c:203-217 | a complete packet is delimited exactly, whatever follows |
| MqttFrame.PartialNotDelimited | backends/common/ove_net_mqtt.c:203-217 | no proper beginning of a packet is taken for one |
| MqttFrame.StreamCutExactly | backends/common/ove_net_mqtt.c:236-251 | packets back to back, followed by a partial one, are cut out one by one in order |
| MqttFrame.PublishRoundTrip | backends/common/ove_net_mqtt.c:152-201 | a PUBLISH is parsed back to its own topic, payload and identifier |
| MqttFrame.ScanBuffer | backends/common/ove_net_mqtt.c:152-251 | the loop takes packets in order and stops at the expected one; with a message callback it acknowledges every QoS-1 PUBLISH on the way, accepted or not, and hands on the accepted ones |
| MqttFrame.WaitDelivers | backends/common/ove_net_mqtt.c:152-251 | for any messages and packets of other types back to back, then the packet waited for and anything after it, the scan finds that packet, delivers exactly the accepted messages and acknowledges exactly those with an identifier, in order |
| MqttFrame.Client.Publish | backends/common/ove_net_mqtt.c:502-549 | sends if and only if the whole frame fits, then exactly the frame, with identifiers 1 to 65535 |
| MqttFrame.PlainFrame | backends/common/ove_net_mqtt.c:502-549 | the nine bytes of a small PUBLISH, sent and parsed back |
| MqttFrame.AckedFrame | backends/common/ove_net_mqtt.c:502-549 | the nine bytes of a small PUBLISH with an identifier, sent and parsed back |
| MqttFrame.SentIsPacket | backends/common/ove_net_mqtt.c:525-549 | with its payload present the frame is one well-formed PUBLISH |
| MqttFrame.SentDelimitedIff | backends/common/ove_net_mqtt.c:502-549 | the frame is read back as one packet if and only if a payload was given or its length is zero, and the Remaining Length is at most 268435455 |
| MqttFrame.NullPayloadNotDelimited | backends/common/ove_net_mqtt.c:544-547 | a null payload of length one gives a frame that is one byte short |
| MqttFrame.OversizeNotDelimited | backends/common/ove_net_mqtt.c:89-99 | a payload that makes the Remaining Length 268435456 gives a frame no receiver delimits |
| MediaOwner.WordCountsHolders | src/ove_media.c:26-96 | in every interleaving the word is the filesystem bit plus the writer bit plus four times the readers holding a lease, a writer is alone, and no field carries or borrows |
| MediaOwner.AllReturnedMeansFree | src/ove_media.c:26-96 | once every caller has failed or released, the word is zero |
| MediaOwner.SoloFsAcquire | src/ove_media.c:26-37 | run without interference, the filesystem acquire succeeds if and only if there is no filesystem holder and no writer |
| MediaOwner.SoloFsRelease | src/ove_media.c:39-42 | the filesystem release takes exactly the filesystem bit out of the word |
| MediaOwner.SoloRawAcquire | src/ove_media.c:52-67 | run without interference, a raw acquire succeeds if and only if a writer finds no owner, or a reader no writer and room for one more |
| MediaOwner.SoloAcquire | src/ove_media.c:44-77 | run without interference, a raw acquire ends holding the lease if and only if the card is present with the generation asked for and the word admits the share; otherwise the word is as before |
| MediaOwner.SoloRelease | src/ove_media.c:79-96 | run without interference, a release takes exactly the caller's own share out of the word |
| MediaOwner.ObservedThenRemoved | src/ove_media.c:12-24 | an observation moves no lease and makes exactly the generation observed available, zero counting as one; after a removal, or before the first observation, no raw acquire can succeed |
| MediaOwner.HeldMeansCardSeen | src/ove_media.c:69-105 | in every interleaving a held lease was checked while already counted: one state of the run had the card present, a later one the generation asked for |
| MediaOwner.HeldAtOneInstant | src/ove_media.c:44-105 | if no generation comes back, one instant of the run had the card present, with the generation asked for, while the lease was counted |
| MediaOwner.StepKeeps | src/ove_media.c:26-105 | every atomic step keeps the count |
| MediaOwner.RunKeeps | src/ove_media.c:26-105 | every run keeps the count |
| MediaOwner.ReaderDropped | src/ove_media.c:86-91 | releasing a reader never borrows from the other fields |
| TokenBucket.WindowBound | backends/freertos/freertos_net.c:100-165 | over any window of any run, whatever driver and clock do and across tick wraps, at most the burst plus one frame per full period is charged |
| TokenBucket.ReceivedBound | backends/freertos/freertos_net.c:100-165 | with a driver that keeps to its budget, at most the burst plus one frame per full period is received over any window |
| TokenBucket.HonestCharged | backends/freertos/freertos_net.c:144-157 | with a driver that keeps to its budget, the frames charged are the frames received |
| TokenBucket.WaitExact | backends/freertos/freertos_net.c:137-143 | a throttled pass sleeps a positive time of at most three periods, and the next refill reaches the threshold if and only if that time is over |
| TokenBucket.SaturatedCoalesces | backends/freertos/freertos_net.c:130-152 | under saturation every poll takes a whole burst, never fewer frames |
| TokenBucket.RefillKeepsCredit | backends/freertos/freertos_net.c:113-128 | the refill keeps the credit up to the burst and leaves less than a period outstanding |
| TokenBucket.PassSpends | backends/freertos/freertos_net.c:112-165 | each frame charged costs exactly one period of credit |
| TokenBucket.ChargedPaid | backends/freertos/freertos_net.c:112-165 | the frames of a stretch are paid for by its initial credit and its length |
| TokenBucket.CreditGrows | backends/freertos/freertos_net.c:119-120 | credit grows no faster than time, even across a wrap |
| TokenBucket.RefillTicks | backends/freertos/freertos_net.c:108-110 | the period is eight milliseconds in whole ticks, at least one, and three of them fit a tick count |
| TokenBucket.TopUp | backends/freertos/freertos_net.c:115-128 | the refill keeps the credit up to the burst and leaves a short bucket with less than a period outstanding |
| TokenBucket.Turn | backends/freertos/freertos_net.c:112-165 | one turn spends one period of credit per frame and charges what the driver answered, no less than none and no more than the budget; a turn short of tokens charges nothing and sleeps a positive time, exactly until a refill reaches the threshold |
| TokenBucket.RxTask | backends/freertos/freertos_net.c:100-165 | the loop over any stretch of clock readings and driver results; over every window of it at most the burst plus one frame per full period is charged, and with a driver that keeps to its budget that is what was received |
| PowerManager.Manager.constructor | src/ove_pm.c:50-83 | the zeroed context is not initialised |
| PowerManager.Manager.Init | src/ove_pm.c:158-193 | starts afresh in the active state, refuses a second start, stays off when setup fails |
| PowerManager.Manager.UpdateStats | src/ove_pm.c:148-154 | the open stay is charged to its state and the timeline stays gap-free |
| PowerManager.StayCharged | src/ove_pm.c:148-154 | one more stay adds its length to the total of its own state and to no other, and the total still fits |
| PowerManager.Manager.SetState | src/ove_pm.c:209-246 | closes one stay and opens the chosen one; refused and same-state calls change nothing; sleep restarts the idle count |
| PowerManager.Manager.Check | src/ove_pm.c:502-540 | the checks before the lock: activity is consumed once and asks for waking, otherwise only a deeper state than the present one is asked for |
| PowerManager.Manager.AskedMeans | src/ove_pm.c:528-537 | below a 32-bit count of milliseconds, what the idle hook asks for is the custom policy's answer if it is a state, or the thresholds compared with the idle time in microseconds |
| PowerManager.Manager.Enter | src/ove_pm.c:518-588 | the locked part keeps the timeline gap-free and ends active, whatever the state has become since the checks |
| PowerManager.Manager.IdleProcess | src/ove_pm.c:502-588 | activity wakes; otherwise only a deeper recommendation sleeps, adding exactly two stays and ending active, without counting as activity |
| PowerManager.Manager.ResetStats | src/ove_pm.c:454-470 | restarts the timeline now with one visit of the current state |
| PowerManager.Manager.GetStats | src/ove_pm.c:421-452 | each time is that of the timeline, the total is exactly the time since the last reset, counts are visits, the share is at most 100 percent |
| PowerManager.Manager.GetBudgetStatus | src/ove_pm.c:483-498 | the low-power share complements the active share and never wraps below zero |
| PowerManager.Manager.Run | src/ove_pm.c:209-588 | any sequence of calls, with anything between the checks and the locked part of the idle hook, keeps the books since the last reset |
| PowerManager.SpentAddsUp | src/ove_pm.c:421-452 | the times of the four states add up to the whole timeline |
| PowerManager.PolicyEscalates | src/ove_pm.c:99-112 | the default policy is awake exactly below the idle threshold, in each sleep state exactly between its threshold and the next, and monotone |
| PowerManager.PctExactIff | src/ove_pm.c:445-448 | the share is the true quotient if and only if the product fits 64 bits |
| PowerManager.PctBounded | src/ove_pm.c:445-448 | the share never exceeds 100 percent, wrapped or not |
| PowerManager.PctWraps | src/ove_pm.c:445-448 | a total for which a system that never slept is reported as never active |

## Left out

- ProfilerRing: weak memory orderings (steps are sequentially consistent); fewer than 2^32 reservations between one producer's load and its compare-and-swap.
- RtScope: weak memory orderings; fewer than 2^32 generation changes during one read attempt and fewer than 2^32 releases between two executions. Thread-state fields, ages and the window double buffer are not modelled.
- RtMetrics.PercentileMeans: when the last bound is reported, for latencies of at most one period, because the last table bound is one period and its bin also takes everything above it.
- Arena.Arena.Free: what it does where the bytes before an unknown address look like an allocated block is stated for the accounting only (`StrayFreeHarmlessIff`); the list is then corrupted in ways that depend on client data. The zeroing of `calloc` and the getters are not modelled.
- AudioGraph: node start and stop with rollback, caller storage registration, teardown and the timing statistics. Callbacks are functions of their index and input.
- AudioGraph.Graph.Process: a callback is taken to write within the room its buffer was given; when the 64-bit size has wrapped (`ByteSizeExactIff`) that room is smaller than the period, and what the callback writes beyond it is not modelled.
- ThumbReloc: the displacement is added up without the 32-bit limit of the signed C sum, which overflows only for distances within 16 MB of 2^31; relocation offsets are taken to lie in the loaded part, which the C code does not check.
- ThumbReloc.Module.Veneer: the bounds test is made without the 32-bit wrap of the C sum, which differs only for a region that ends within 11 bytes of the top of the address space.
- ThumbReloc.Module.Relocate: its arrival clause is for places that do not overlap, standard addends and a region of at most 16 MB; every single relocation is covered by `Branch`.
- LoaderLayout: symbol and string tables, data relocations, the FDPIC and x86-64 formats.
- FatFile: FatFs itself is a byte sequence with a cursor that may fail at any call; directories, mounting, path handling and the request queue are not modelled.
- FatFile: `size_t` is taken to be as wide as `long`.
- BlockBytes: the lease and device identification are flags; a failed sector write is taken to change nothing.
- MqttFrame: connection, TLS, keep-alive, subscribe and unsubscribe frames, receive timeouts.
- MqttTopic: the length-zero checks of callers, and how filters enter and leave the subscription table.
- MediaOwner: weak memory orderings. Calls that fail the parameter check take no step. Only a holder releases.
- TokenBucket.ReceivedBound: for a driver that keeps to its budget; the code charges no more than the budget, so a driver that passes more is not bounded by it.
- TokenBucket.WaitExact: for a sleep shorter than a full wrap of the tick counter.
- PowerManager: wake sources, power domains, notifiers and hardware calls. The checks of the idle hook are one step and each locked section another. The 64-bit clock never goes back.
- Other subsystems (kernel adapters, shell, graphics, other network protocols, bindings for other languages): they forward to a kernel or library, or would only add easy members.

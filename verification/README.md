# Verification of the Ultrasonic-Project algorithms and protocols

This directory models, in Dafny, the self-contained algorithms, protocols and state machines of the
repository and proves what they do on every input, every run or every interleaving.

| file | what it models |
|---|---|
| `Basics.dfy` | optional values and sums over sequences, shared by the other files |
| `Graphs.dfy`, `Settling.dfy`, `TieBreaking.dfy`, `TableRuns.dfy`, `Dijkstra.dfy` | shortest paths over an adjacency matrix, and the printed predecessor walks |
| `BoundedBuffer.dfy` | producers and consumers around a semaphore-and-mutex buffer |
| `SharedCounter.dfy` | threads that increment a counter under a mutex |
| `ReadyFlag.dfy` | a flag guarded by a mutex and a condition variable |
| `SubarrayModulo.dfy` | the largest subarray sum modulo m |
| `TenBitFrame.dfy` | unpacking of 10-bit semi-planar frames into 16-bit words |
| `SystemInit.dfy` | reference-counted start-up under a best-effort semaphore, and shutdown |
| `ColourStandard.dfy` | the colour-standard and timing report of the video decoder |
| `OtpStore.dfy` | one-time-programmable calibration slots |
| `DolbyDriver.dfy` | the START/STOP events and the PD setting of the Dolby driver |
| `PowerDown.dfy` | power-down bits of the analog blocks and their status decoder |
| `PixelStatistics.dfy` | extremes and variance of a pixel window in 32-bit arithmetic |

Fixed sizes of the programs (10 nodes, a buffer of 5, 5 threads, 1920 by 1080, 400 by 100) are
parameters here. Functions that update arrays or static variables are methods over arrays and
classes, each proved equal to a function on values about which the lemmas then speak. Threads are a
transition function with a program counter per thread: a schedule names the thread that moves next,
and every statement is about all schedules. Semaphores, mutexes and condition variables follow
`sem_wait`, `pthread_mutex_lock` and `pthread_cond_wait` of IEEE Std 1003.1-2017, System Interfaces:
waiting on a condition releases the mutex and joins the wait set in one step, a signal wakes at
least one waiting thread if there is one, and a thread may wake up for no reason.

## Where the code does not do what it is for

Each of these is stated with a concrete input and with the exact condition under which the code is right.

- Shortest paths, sums: line 70 adds in an int. With weights up to INT_MAX - 9999 = 2147473648 no sum
  overflows, whatever the graph, the start and the initial `nextnode`, and with no higher bound can
  that be said (`TableRuns.WeightsNeverOverflowIff`). On [[0,1,5],[0,0,2147483647],[0,0,0]] the first
  round overflows, and a sum that wraps around undercuts the distance 5 of node 2
  (`TableRuns.SelectingRoundOverflows`). The exact condition for one run is `TableRuns.NeverOverflows`;
  what follows is about the runs that meet it.
- Shortest paths, sentinel: 9999 stands for both "no edge" and "no path". For a node that the start
  reaches, but by no path lighter than 9999, the program prints the least cost of one more hop from a
  lightly reachable node, where a missing edge costs 9999. The number is right exactly when the node is
  unreachable, has a path lighter than 9999, or this least cost happens to be its distance and above
  9999 (`Dijkstra.Dijkstra`, `Dijkstra.FaithfulIff`); without a start edge above 9999 to the node the
  last case cannot arise (`Dijkstra.FaithfulIffLight`). Two edges of 5000 come out as 9999
  (`Dijkstra.HeavyPathIsLost`); a start edge of 20000 can come out as 10000 with a walk over an edge
  that does not exist (`Dijkstra.HeavyEdgePrintsPhantomWalk`); and if the start reaches nothing lightly,
  the report depends on the uninitialised `nextnode` (`Dijkstra.ReportDependsOnJunk`).
- Subarray sum: the comment asks for the smallest greater prefix, the loop takes the first. On
  `[8, 7, 9]` modulo 10 it answers 8 where 9 is possible (`SubarrayModulo.FirstFoundIsNotOptimal`,
  `SubarrayModulo.OptimalIff`). A negative prefix remainder is not brought back into range: on `[-1]`
  modulo 10 it answers 0 where 9 is the only residue (`SubarrayModulo.NegativeElementIsLost`,
  `SubarrayModulo.SignedOptimalIff`). `SubarrayModulo.MaximumSumVariant` is a variant, not the program.
- Frame unpacking: the luma pointer is rebased on the first row for ever, so every row from the
  third on shows the second (`TenBitFrame.RowAsIntendedIff`, `TenBitFrame.ThirdRowIsLost`). The same
  rebase moves the pointer that is freed at the end: it is the allocated one exactly when the width or
  the height is 0 (`TenBitFrame.Unpack`).
- Ready flag: one signal serves one waiter; with two, one sleeps for ever
  (`ReadyFlag.DeadlockFreeIffOneWaiter`). The program creates one.
- Start-up: a call that gave up on the semaphore still posts it and can return before the layer is
  active (`ConcurrentInit.SecondReturnsEarly`); two calls can be inside at once, run the initialisers
  twice and lose one of their two increments (`ConcurrentInit.BothRunTheList`). Each of these is
  excluded for all timings exactly when there is at most one call, whatever the semaphore begins with
  (`ConcurrentInit.AlwaysOrderlyIff`). The semaphore is a named one and keeps the extra posts for later
  processes; with two or more in it, order is lost without any timeout
  (`ConcurrentInit.SemaphoreConserved`, `ConcurrentInit.OrderlyWithoutTimeoutsIff`).
- Shutdown: one shutdown too many followed by a start-up leaves the layer active with no user
  outstanding (`SystemContext.StopThenStartIsUntruthful`, `SystemContext.TruthfulIff`).
- PD setting: a value with a zero low byte passes the guard of the dark and game modes, a failing
  mailbox leaves PD on in them, and on a closed device a value is stored without being announced
  (`DolbyDriver.WideValueBreaksCoupling`, `DolbyDriver.FailedMailboxBreaksCoupling`,
  `DolbyDriver.ClosedDeviceBreaksCoupling`; `DolbyDriver.CoupledThroughoutIff`).
- Timing report: the geometry follows the raw field rate and the reported rate follows the standard,
  so the two can disagree (`ColourStandard.GeometryDisagrees`, `ColourStandard.GeometryCanDisagree`).
- Calibration slots: an all-zero calibration leaves its slot writable
  (`OtpStore.ZeroCalibrationLeavesSlotOpen`).
- Power-down status: the CVBS block counts as up, or as down, without its last register
  (`PowerDown.UpMeansUp`, `PowerDown.CvbsBlindSpot`, `PowerDown.DownMeansDown`, `PowerDown.CvbsBlindSpotDown`).
- Pixel variance: a rejected pixel adds nothing to the sum and still counts in the divisor
  (`PixelStatistics.RejectedPixelsDilute`, `PixelStatistics.RejectedPixelHalvesVariance`); the printed
  value is the mean over the accepted pixels for every stream exactly if all are accepted
  (`PixelStatistics.NeverDilutedIff`).

## Model

| member | source | states |
|---|---|---|
| Graphs.CrossingBound | Dijikstra algorihm:66-74 | a path that leaves the settled nodes weighs at least as much as some unsettled table entry |
| Graphs.ShortPath | Dijikstra algorihm:54 | whatever is reachable is reachable by a path of at most n-1 edges |
| Graphs.MissesAtMostOne | Dijikstra algorihm:54 | n-1 settled nodes leave at most one node unsettled, which is why n-2 rounds are enough |
| Dijkstra.BuildCost | Dijikstra algorihm:35-40 | the cost matrix holds the weight of each edge and 9999 where there is none |
| Dijkstra.Initialise | Dijikstra algorihm:43-52 | the three arrays hold the tables with which the run begins |
| TableRuns.BeginKeeps | Dijikstra algorihm:43-52 | those tables satisfy the loop invariant with only the start settled |
| Dijkstra.SelectNearest | Dijikstra algorihm:56-64 | the selected node is unvisited and of least distance below 9999, and every unvisited node of a lower number is farther; or nothing is below 9999 and the old choice stays |
| Dijkstra.RelaxFrom | Dijikstra algorihm:68-74 | if its sums fit in an int, exactly the unvisited entries that the selected node improves are changed, together with their predecessors |
| Settling.SelectedIsExact | Dijikstra algorihm:59-67 | no path to the selected node is lighter than its table entry |
| Settling.SelectingRound | Dijikstra algorihm:56-75 | a selecting round, its sums being exact, keeps settled entries exact and unchanged, the frontier relaxed, settling order nondecreasing, and predecessors a tree |
| Settling.IdleRound | Dijikstra algorihm:56-75 | a round that finds nothing, whatever stale node it runs on, its sums being exact, changes no entry up to 9999 and keeps all invariants |
| Dijkstra.OneRound | Dijikstra algorihm:54-76 | if its sums fit in an int, one pass of the outer loop takes the arrays from one table of the run to the next |
| TableRuns.RoundKeeps | Dijikstra algorihm:54-76 | each round of the run only extends the settled nodes and the distances at which they were settled, so these never change |
| TableRuns.TheRun | Dijikstra algorihm:43-76 | graph, start and initial nextnode determine one run of tables |
| Settling.UnsettledBound | Dijikstra algorihm:54-76 | the last unsettled node, never selected, is bounded from below as well |
| Settling.EntriesNearest | Dijikstra algorihm:56-75 | in a selecting round every entry stays the cost of its last hop, heavy or missing as it may be, on top of a settled entry |
| Settling.EntriesIdle | Dijikstra algorihm:56-75 | an idle round changes nothing, except that the first round of all, if idle, relaxes once from the initial value of nextnode at distance 9999 |
| TieBreaking.SelectingIsCanonical | Dijikstra algorihm:56-74 | nodes are settled by distance and then by number, and each predecessor is the first settled node that gives the entry its value |
| TieBreaking.IdleIsCanonical | Dijikstra algorihm:56-74 | an idle round keeps that |
| Dijkstra.ShortestPaths | Dijikstra algorihm:35-76 | if no sum of the run overflows, the arrays end as the last tables of the run |
| TableRuns.RunIsSettled | Dijikstra algorihm:35-76 | after n-2 rounds, from any initial value of nextnode in range, the tables are settled and at most one node below 9999 is not, predecessors form a chain of at most n-1 nodes, and every entry is accounted for by its last hop |
| TableRuns.SumsAreNotNegative | Dijikstra algorihm:70 | no sum is negative, so only the upper end of an int can be left |
| TableRuns.WeightsNeverOverflowIff | Dijikstra algorihm:17-70 | weights up to a bound never overflow the sum on any graph, start and initial nextnode if and only if the bound is at most INT_MAX - 9999 |
| TableRuns.IdleRoundOverflows | Dijikstra algorihm:56-70 | above that bound one edge out of the node that nextnode happened to hold makes the first, idle round overflow |
| TableRuns.SelectingRoundOverflows | Dijikstra algorihm:56-70 | an input whose first round adds 1 and 2147483647; wrapped around, the sum is below the distance 5 |
| Dijkstra.WalkBack | Dijikstra algorihm:85-90 | the walk along predecessors ends at the start after at most as many steps as the chain is long |
| Dijkstra.WalkIsPath | Dijikstra algorihm:79-91 | read backwards, the walk is a real path whose weight is the table entry |
| Dijkstra.EntryIsCorrect | Dijikstra algorihm:66-83 | in the last tables of the run (those of the program if no sum overflows) a number below 9999 is the minimum path weight; one from 9999 on means that no path is lighter than 9999, and is the least cost of one hop from a lightly reachable node (or from the initial value of nextnode if there is none but the start) |
| Dijkstra.WalkIsCorrect | Dijikstra algorihm:79-91 | in the last tables of the run (those of the program if no sum overflows) the walk read backwards is a path of the printed weight, and each step goes to the nearest node, and of these to the one of the lowest number, that comes just before on a path of least weight; from 9999 on it is such a light path and the first hop, or the strictly better hop from the initial value of nextnode |
| Dijkstra.Dijkstra | Dijikstra algorihm:26-92 | for every non-negative graph and initial nextnode in range whose run overflows no sum: one line per node other than the start, in order, whose number and walk have exactly that meaning, with a walk of at most n-1 steps to the start; the number is faithful if and only if the condition of the next row holds |
| Dijkstra.OneReport | Dijikstra algorihm:56-91 | graph, start and initial nextnode leave one correct report: numbers and walks are determined, ties included |
| Dijkstra.FaithfulIff | Dijikstra algorihm:3-3 | for every correct line, as the program prints them if no sum overflows: its number is the distance, and 9999 exactly for an unreachable node, if and only if the node is unreachable, has a path lighter than 9999, or the least cost of one hop is its distance and above 9999 |
| Dijkstra.FaithfulIffLight | Dijikstra algorihm:3-4 | for a correct line, and without a start edge above 9999 to the node: if and only if it is unreachable or has a path lighter than 9999 |
| Dijkstra.BoundedWeightsAreLight | Dijikstra algorihm:3-4 | weights with (n-1) times the largest below 9999 guarantee that |
| Dijkstra.HeavyPathIsLost | Dijikstra algorihm:35-76 | two edges of 5000: the node at distance 10000 comes out as 9999 |
| Dijkstra.HeavyEdgePrintsPhantomWalk | Dijikstra algorihm:35-91 | a node at distance 20000 is printed with 10000 and a walk over a missing edge |
| Dijkstra.HeavyEdgeCanBeRight | Dijikstra algorihm:35-76 | a lone edge of 10000 is printed as it is, although no path is lighter than 9999 |
| Dijkstra.ReportDependsOnJunk | Dijikstra algorihm:35-91 | one graph, two reports: 10000 by way of an unreachable node if nextnode held it at first, 20000 otherwise |
| BoundedBuffer.InBounds | thread.c:416-432 | in every consistent state the next access `buffer[count++]` or `buffer[--count]` is inside the buffer |
| BoundedBuffer.CountsAlways | thread.c:400-440 | in every interleaving no access is out of range, `count` agrees with the semaphores and the threads in flight, and only the mutex owner is in the critical section |
| BoundedBuffer.TokensConserved | thread.c:405-437 | free tokens, filled tokens and threads between a wait and a post always sum to the capacity |
| BoundedBuffer.LogAlways | thread.c:409-440 | in every interleaving the buffer is the stack that the sequence of updates describes, producers put in their numbers in order, and consumers hold what they took |
| BoundedBuffer.StackConserves | thread.c:416-432 | what went in is what came out plus what is in the buffer |
| BoundedBuffer.EffectiveRunsAreBounded | thread.c:409-440 | steps taken and steps left add up to six per item, so no run goes on for ever |
| BoundedBuffer.StuckIsIdle | thread.c:413-437 | a state where nothing can move has no thread between its wait and its post, and `count` equals `full` |
| BoundedBuffer.DeadlockFreeIffBalanced | thread.c:409-456 | a run that can go no further has finished if and only if consumption C and production P satisfy C <= P <= C + N (and P is 0 when there is no slot) |
| BoundedBuffer.ConsumersHoldAll | thread.c:426-440 | at the end the consumers together hold each item as often as it was popped |
| BoundedBuffer.EveryItemOnce | thread.c:409-456 | at the end every item is held by a consumer or still buffered, exactly once in all |
| BoundedBuffer.ConsumersHoldTheirItems | thread.c:426-440 | each consumer ends with as many items as its quota, those it popped, in that order |
| BoundedBuffer.EqualTotals | thread.c:442-456 | with equal totals no run deadlocks, and it ends with `count` 0 and each item in the hands of exactly one consumer |
| SharedCounter.AlwaysConsistent | thread.c:155-162 | in every interleaving of split increments the counter equals the stores completed |
| SharedCounter.OneInside | thread.c:157-159 | no two threads are past their lock at once |
| SharedCounter.NoUpdateLost | thread.c:155-184 | a run that can go no further is complete and lost no increment |
| SharedCounter.EffectiveRunsAreBounded | thread.c:155-162 | steps taken and steps left add up to four per increment, so no run goes on for ever |
| SharedCounter.FinalValue | thread.c:150-184 | T threads of K increments end at T*K |
| ReadyFlag.AlwaysConsistent | thread.c:278-296 | in every interleaving, spurious wakeups included, the flag follows the signaller, and with one waiter nobody is in the wait set once the signal is out |
| ReadyFlag.ProceedsOnlyWhenReady | thread.c:280-284 | a waiter gets past its loop only when ready is set; a lone waiter in the wait set with ready set still has its signal to come |
| ReadyFlag.StuckStates | thread.c:278-296 | a state is stuck exactly when the signaller is done and every waiter is done or in the wait set |
| ReadyFlag.EffectiveRunsAreBounded | thread.c:278-296 | a run takes at most six steps per waiter, four for the signaller and three per spurious wakeup |
| ReadyFlag.SpuriousWakeup | thread.c:280-283 | a waiter that wakes up for no reason is back asleep two steps later with nothing changed while ready is unset, and gets past its loop once it is set |
| ReadyFlag.SecondWaiterSleeps | thread.c:278-296 | for any number of waiters from two on there is a run in which one of them is never woken |
| ReadyFlag.DeadlockFreeIffOneWaiter | thread.c:278-308 | no run deadlocks if and only if there is at most one waiter |
| SubarrayModulo.FindGreater | hacker rank:79-86 | the inner loop yields the first stored prefix that is greater, or LONG_MAX |
| SubarrayModulo.MaximumSum | hacker rank:66-94 | on every input, of either sign, on which no C operation overflows, the program computes the scan over the prefix remainders |
| SubarrayModulo.ValidIsPlain | hacker rank:66-94 | on non-negative elements up to LONG_MAX - m + 1 nothing overflows, and the remainders are the residues |
| SubarrayModulo.SmallModulusNeverOverflows | hacker rank:73-89 | for m up to 2^62 + 1, nothing overflows on elements of either sign whose sum with a remainder cannot |
| SubarrayModulo.ResidueFromPrefixes | hacker rank:73-89 | the residue of a subarray is the difference of two prefix residues, plus m if negative |
| SubarrayModulo.ResultIsSound | hacker rank:66-94 | on every nonempty input the scan over the residues is the residue of some nonempty subarray, below m, and at least every prefix residue |
| SubarrayModulo.OptimalIff | hacker rank:79-90 | the scan over the residues is the maximum if and only if no prefix residue follows a greater one, or a pair found first is a closest pair, or some prefix plus the least gap is at least m |
| SubarrayModulo.SmallestFoundIsOptimal | hacker rank:79-90 | it is the maximum whenever each first-found greater prefix is also the smallest greater one |
| SubarrayModulo.FirstFoundIsNotOptimal | hacker rank:81-86 | on [8, 7, 9] modulo 10 the answer is 8 and the maximum 9 |
| SubarrayModulo.SignedResultIsSound | hacker rank:66-94 | for elements of either sign the result lies between 0 and m-1 and is 0 or the residue of some nonempty subarray |
| SubarrayModulo.SignedOptimalIff | hacker rank:72-90 | for elements of either sign the result is the maximum if and only if each negative remainder plus m, and what a closest pair of residues is worth, is reached by a prefix or a first-found pair |
| SubarrayModulo.NegativeElementIsLost | hacker rank:73-74 | on [-1] modulo 10 the answer is 0, the residue of no subarray |
| SubarrayModulo.MaximumSumVariant | hacker rank:79-90 | variant that keeps the smallest greater prefix, as the comment says: the maximum on every input |
| TenBitFrame.ExtractIsSample | YUV:843-850 | the four shift-and-mask expressions read the four consecutive ten-bit fields of five bytes, most significant bit first |
| TenBitFrame.PackSamples | YUV:843-850 | packing the four samples gives the five bytes back |
| TenBitFrame.SamplesOfPack | YUV:843-850 | unpacking four packed samples gives them back |
| TenBitFrame.UnpackGroup | YUV:843-850 | one iteration writes the eight interleaved words of one group and nothing else |
| TenBitFrame.UnpackRow | YUV:841-864 | one row is filled word after word and nothing else, and the pointers end where the rebase puts them |
| TenBitFrame.Unpack | YUV:831-868 | for any width divisible by four and any height every output word is written exactly once, in order: chroma sample k of row r, then luma sample k of row min(r, 1); the pointer freed is the allocated one if and only if width or height is 0 |
| TenBitFrame.WordsRoundTrip | YUV:843-866 | four neighbouring chroma words of the output pack back to their five input bytes, and four luma words to the five bytes of row min(r, 1) |
| TenBitFrame.FirstRowsAsIntended | YUV:857-860 | the first two rows show their own luma |
| TenBitFrame.RowAsIntendedIff | YUV:857-860 | a row from the third on shows its own luma if and only if it repeats the second row byte for byte |
| TenBitFrame.ThirdRowIsLost | YUV:857-860 | a frame of three rows whose third row is not shown |
| ConcurrentInit.SemaphoreConserved | base.c:244-322 | in every run of concurrent calls the semaphore plus its holders equals its first value plus the finished calls that never acquired it, which is what stays in it when all have returned |
| ConcurrentInit.ThreeAttempts | base.c:232-250 | in every run a call makes at most three attempts, and goes on without the semaphore only after all three |
| ConcurrentInit.ActiveStays | base.c:258-275 | from an active state on, timeouts or not, the layer stays active and only calls already past the flag run the list |
| ConcurrentInit.NoListOnceActive | base.c:258-275 | if there are none of these, the list never runs again |
| ConcurrentInit.Exclusion | base.c:244-284 | while nobody gave up on a semaphore that began with at most one, at most one call is between acquiring and posting |
| ConcurrentInit.OrderlyWithoutTimeouts | base.c:244-284 | in a run without timeouts, on a semaphore that began with at most one, calls exclude each other, the initialisers run at most once, the count is that of the calls, and the layer is active whenever a call has returned |
| ConcurrentInit.SecondReturnsEarly | base.c:246-284 | two or more calls, any first value: a call returns with the layer inactive; with a first value of one it has timed out and frees a semaphore that is still held |
| ConcurrentInit.BothRunTheList | base.c:246-275 | two or more calls, any first value: two are inside at once, both run the initialisers, and the count is 1 for two increments; with a first value of two or more nobody timed out |
| ConcurrentInit.AlwaysOrderlyIff | base.c:241-284 | without assumptions about timing, for any first value: the initialisers run at most once, calls exclude each other, no increment is lost, and every call returns with the layer active, each if and only if there is at most one call |
| ConcurrentInit.OrderlyWithoutTimeoutsIff | base.c:244-322 | runs without timeouts all keep that order if and only if there is at most one call or the semaphore began with at most one |
| SystemContext.KadpContext.InitSystem | base.c:258-277 | start-up counts the user and runs the initialisers unless the layer is in use or active |
| SystemContext.KadpContext.ShutdownSystem | base.c:290-309 | shutdown uncounts the user and runs the exit list for the last one |
| SystemContext.ListsAlternate | base.c:228-315 | over any history of calls the two lists alternate, and the layer is active in between |
| SystemContext.WhoRunsAList | base.c:258-309 | from any context, start-up runs the list exactly if nobody is counted and the layer is inactive, and shutdown exactly for the last user of an active layer |
| SystemContext.ExitStartsAfresh | base.c:290-309 | over any history a run of the exit list leaves a count of zero, and an inactive layer counts nobody |
| SystemContext.TruthfulIff | base.c:258-309 | count and active flag match the outstanding users throughout a history if and only if no start-up follows more shutdowns than start-ups |
| SystemContext.StopThenStartIsUntruthful | base.c:290-309 | shutdown then start-up: active with no user outstanding |
| ColourStandard.TimingReader.GetTimingInfo | kadaptor.c:865-1048 | the branching decision equals a three-case one (out of range, unstable, otherwise raw), independent of the colour-system lock and the source attribute; the static variables change only as stated; NON_STANDARD is reported exactly for an out-of-range reading, or an unstable one after NON_STANDARD; the result of the driver calls is passed on |
| ColourStandard.StableReadingIsReported | kadaptor.c:890-927 | over any history a reading in range is reported once it was stable for 8 calls with the PAL/SECAM double lock, else for 1 in an NTSC-only system and 3 in others, and the previous report until then; out of range NON_STANDARD |
| ColourStandard.LockedIsLastSupported | kadaptor.c:868-936 | over any history the locked standard is the last reported one below NON_STANDARD, or DEFAULT |
| ColourStandard.VFreqFollowsStandard | kadaptor.c:1005-1009 | the reported field rate is 500 exactly when that standard is PAL_BG, PAL_N, PAL_CN or SECAM, and 599 otherwise |
| ColourStandard.VFreqIgnoresRawVFreq | kadaptor.c:984-1009 | histories that differ only in raw field rates report the same field rates and standards |
| ColourStandard.GeometryCanDisagree | kadaptor.c:984-1009 | the geometry follows the raw field rate, and agrees with the reported one exactly when raw rate and standard agree |
| ColourStandard.GeometryDisagrees | kadaptor.c:984-1009 | a stable NTSC_M signal read at 500: rate 599 with the 50 Hz geometry |
| ColourStandard.GeometryDisagreesAt50 | kadaptor.c:984-1009 | a stable PAL_BG signal read at 599: rate 500 with the 60 Hz geometry |
| ColourStandard.DefaultNeverReturns | kadaptor.c:918-936 | once another standard was reported DEFAULT never is again |
| ColourStandard.ChangeNeedsStability | kadaptor.c:904-933 | a change to a supported standard is a raw reading that has been stable for the required count |
| OtpStore.DecodeEncode | kadaptor.c:2661-2736 | reading the twelve bytes written gives the six 16-bit values |
| OtpStore.EncodeDecode | kadaptor.c:2661-2736 | writing the six values read gives the twelve bytes |
| OtpStore.BytesInOrder | kadaptor.c:2661-2736 | the more significant byte comes first, gains before offsets, red, green, blue |
| OtpStore.OtpAdapter.GetGain | kadaptor.c:2651-2666 | the gains stored in a supported slot, zeroes and an error for an unsupported one |
| OtpStore.OtpAdapter.GetOffset | kadaptor.c:2676-2691 | the offsets stored in a supported slot, zeroes and an error for an unsupported one |
| OtpStore.OtpAdapter.SetGainOffset | kadaptor.c:2703-2766 | a write reaches only an empty supported slot; a dry run succeeds exactly when the slot already holds the data |
| OtpStore.SucceedsIff | kadaptor.c:2711-2766 | a request succeeds exactly on slot 0 or an earlier chip, for a write if the slot is empty, and for a dry run if it reads back as the six values; otherwise nothing changes |
| OtpStore.WrittenOnce | kadaptor.c:2718-2722 | a non-zero slot never changes again, over any sequence of requests |
| OtpStore.OtherSlotsUntouched | kadaptor.c:2703-2766 | a request changes at most its own slot, from empty to its data |
| OtpStore.ReadsBackWhatWasSet | kadaptor.c:2651-2766 | after a successful request the exact six values are read back, and still are after any further requests unless all are zero |
| OtpStore.ZeroCalibrationLeavesSlotOpen | kadaptor.c:2718-2722 | a second write succeeds if and only if the first was all zero |
| DolbyDriver.Driver.OpenDevice | OTT.c:210-254 | opening succeeds exactly when the device is not open and memory suffices |
| DolbyDriver.Driver.ReleaseDevice | OTT.c:256-279 | releasing forgets the file but not the mode, the PD status or the log |
| DolbyDriver.Driver.VscEvent | OTT.c:662-736 | a source event posts STOP for the mode left and START for the mode entered |
| DolbyDriver.Driver.SetPDControl | OTT.c:821-854 | which PD requests are refused, and what the others store and announce |
| DolbyDriver.Driver.SetPictureMode | OTT.c:935-1001 | the mode is stored first, then PD is switched off if the mode forbids it and the mailbox answers |
| DolbyDriver.EventsAlternate | OTT.c:679-728 | across all requests and open/release cycles START and STOP alternate beginning with START, and the mode is non-default exactly after a START, with that START's byte |
| DolbyDriver.LogDeterminesMode | OTT.c:690-723 | the mode byte of the last START determines the driver's mode |
| DolbyDriver.OpenAtMostOnce | OTT.c:210-279 | over any run the device is open at most once, exactly when it has its private data |
| DolbyDriver.SourceIsPosted | OTT.c:679-728 | after any run that leaves the device open a source event posts STOP if something is on, then START with 2 for Dolby on HDMI, 0 for Dolby on VDEC, 1 for RF, 3 for low latency, and nothing for another type |
| DolbyDriver.OtherEventsIgnored | OTT.c:662-690 | a closed device, a malformed event and another source change nothing |
| DolbyDriver.PictureIsPosted | OTT.c:935-1001 | after any run that leaves the device open: the picture mode each request stands for, announced last, and what happens to PD first |
| DolbyDriver.PDIsPosted | OTT.c:821-854 | after any run: which values are refused, which are stored whole, and the low byte that is announced |
| DolbyDriver.CoupledStepIff | OTT.c:836-846 | one request keeps PD off in the dark and game modes and equal to the last announced value if and only if it passes a stated guard |
| DolbyDriver.CoupledThroughoutIff | OTT.c:828-1000 | a run keeps that coupling throughout if and only if all its requests pass the guard |
| DolbyDriver.CoupledWhileOpen | OTT.c:828-1000 | byte values on an open device and an answering mailbox keep the coupling |
| DolbyDriver.WideValueBreaksCoupling | OTT.c:832-846 | the value 256 switches PD on in the dark mode |
| DolbyDriver.FailedMailboxBreaksCoupling | OTT.c:986-993 | a failing mailbox leaves PD on in the game mode |
| DolbyDriver.ClosedDeviceBreaksCoupling | OTT.c:821-854 | on a closed device a value is stored and not announced |
| PowerDown.AnalogDie.Control | kadapt dbg.c:3219-3407 | a command sets or clears exactly the masked bits of its block, in every register of it |
| PowerDown.AnalogDie.ControlAll | kadapt dbg.c:3579-3599 | the all-up and all-down commands drive all seven blocks to 2 and to 0 |
| PowerDown.CommandedStatus | kadapt dbg.c:3443-3540 | the decoder reports 2 after an up command and 0 after a down command |
| PowerDown.StatusFollowsLastCommand | kadapt dbg.c:3219-3540 | after any sequence of commands each block reports its last command, or what it did before if never commanded |
| PowerDown.OtherBitsKept | kadapt dbg.c:3227-3403 | no sequence of commands touches a bit outside the masks |
| PowerDown.UnusedRegistersKept | kadapt dbg.c:3227-3403 | no sequence of commands touches a register of no block |
| PowerDown.AudioBits | kadapt dbg.c:3229-3458 | the registers and bits of the audio block that a command writes, and those from which status 2 and 0 are decoded |
| PowerDown.CvbsBits | kadapt dbg.c:3259-3474 | the registers and bits of the CVBS block that a command writes, and those from which status 2 and 0 are decoded |
| PowerDown.VdacBits | kadapt dbg.c:3306-3486 | the registers and bits of the VDAC block that a command writes, and those from which status 2 and 0 are decoded |
| PowerDown.FrontEndBits | kadapt dbg.c:3321-3499 | the registers and bits of the three-channel front-end block that a command writes, and those from which status 2 and 0 are decoded |
| PowerDown.GbbBits | kadapt dbg.c:3343-3513 | the registers and bits of the GBB block that a command writes, and those from which status 2 and 0 are decoded |
| PowerDown.AadBits | kadapt dbg.c:3357-3529 | the registers and bits of the AAD block that a command writes, and those from which status 2 and 0 are decoded |
| PowerDown.LvdsBits | kadapt dbg.c:3387-3540 | the registers and bits of the LVDS block that a command writes, and those from which status 2 and 0 are decoded |
| PowerDown.UpMeansUp | kadapt dbg.c:3451-3540 | status 2 means that every bit of the block is up, for CVBS only together with its fifth register |
| PowerDown.DownMeansDown | kadapt dbg.c:3451-3540 | status 0 means that every bit of the block is down, for CVBS only together with its fifth register; any status other than 0 and 2 is 1 |
| PowerDown.CvbsBlindSpot | kadapt dbg.c:3461-3472 | a register file that decodes as CVBS up with a CVBS bit down |
| PowerDown.CvbsBlindSpotDown | kadapt dbg.c:3461-3472 | a register file that decodes as CVBS down with a CVBS bit up |
| PixelStatistics.AbsDiffIsDistance | kadapt dbg.c:1201-1216 | the absolute value of a wrapped 32-bit difference of samples is their distance |
| PixelStatistics.AcceptedIffNear | kadapt dbg.c:1214-1216 | a pixel is accepted if and only if each of its three samples is less than 200 away from its average |
| PixelStatistics.KeptAreNear | kadapt dbg.c:1214-1216 | the pixels that count are exactly those, as often as they occur |
| PixelStatistics.OnePixel | kadapt dbg.c:1218-1258 | a window of one pixel: each channel has its own sample as minimum and maximum and its own squared deviation, and the initial values if the pixel is rejected |
| PixelStatistics.SquaresAreDeviations | kadapt dbg.c:1230-1258 | the unwrapped sum is the sum of the squared deviations of those pixels in plain integers |
| PixelStatistics.Measure | kadapt dbg.c:1194-1264 | the nested loops fold every pixel of the window into the three channels |
| PixelStatistics.FoldKeepsRemainder | kadapt dbg.c:1230-1258 | the 32-bit accumulator is the true sum of squares modulo 2^32 |
| PixelStatistics.NeverWrapsIff | kadapt dbg.c:1158-1169 | the sum never wraps for any stream if and only if the window has at most 108456 pixels; 400 by 100 is within that |
| PixelStatistics.VarianceIsExact | kadapt dbg.c:1265-1267 | within that size the variance is that of the true sum and at most 39601 |
| PixelStatistics.ExtremesAreExact | kadapt dbg.c:1218-1257 | if any pixel is accepted, minimum and maximum are exactly those of the accepted samples and at most 398 apart |
| PixelStatistics.MeasureWindow | kadapt dbg.c:1194-1267 | each printed variance is the sum of the squared deviations of the accepted pixels divided by the number of all pixels, and at most 39601 |
| PixelStatistics.RejectedPixelsDilute | kadapt dbg.c:1214-1267 | it never exceeds the mean over the accepted pixels, and equals it exactly when the sum leaves the same quotient, in particular when all are accepted |
| PixelStatistics.NeverDilutedIff | kadapt dbg.c:1214-1267 | with c accepted pixels of n, it equals the mean over the accepted ones for every stream if and only if c is n |
| PixelStatistics.RejectedPixelHalvesVariance | kadapt dbg.c:1214-1267 | one of two pixels rejected: 5000 where the accepted one has 10000 |

## Left out

- Dijkstra.Dijkstra: negative weights are excluded, and so are an initial `nextnode` outside the matrix, which would be an invalid access, and runs on which a sum overflows, which C leaves undefined.
- Dijkstra: interactive input, and the fixed dimension of the matrix.
- BoundedBuffer: the interleavings are a transition function over values, because a Dafny method runs alone;
  so are those of SharedCounter, ReadyFlag and ConcurrentInit. Items carry the name of their producer.
- BoundedBuffer: the stuck states of each run are characterised and runs are bounded; fairness of the scheduler is not modelled.
- SharedCounter: the counter is unbounded, since 5 times 10000 is far from the limit of an int.
- ReadyFlag: endless spurious wakeups; a run is bounded in terms of their number.
- SubarrayModulo.MaximumSum: the modulus is positive, and inputs on which a signed operation overflows, which C leaves undefined, are excluded; the fixed size of the prefix array is not modelled.
- SubarrayModulo.MaximumSumVariant: non-negative elements.
- thread.c: the detach, cancel, read-write-lock and spin-lock demonstrations.
- TenBitFrame: file input and output; the row offset is taken to be the bytes of a row, as it is for the constants of the program.
- ConcurrentInit: the log module, the contents of the module initialisers, a missing semaphore, and shutdown concurrent with start-up.
- ColourStandard: the text of the messages; the numbers of the standards are those of the default timing table, and the driver's replies are inputs.
- OtpStore: the store behind the two secure-engine calls is taken to be faithful; its errors are not modelled.
- DolbyDriver: failing copies from user space, the other controls, and the numbers of the picture modes, whose headers are not part of this model.
- PowerDown: the menu, and the register dump; registers that were never read before hold 0.
- PixelStatistics: the retry loop around a reading; a window is given by the readings that ended it.
- kadaptor.c: the many one-call wrappers and the mode tables.
- tesst.afe.c, sysfs.c, procssfile.c, interrupts.c, mutex, dummy and the prose files: thin glue or documentation.

# PolicySmith: a Dafny model

PolicySmith searches for systems heuristics with a language model and evolutionary search. This project models
the parts of it in which state and branching matter, and states what they guarantee on every input and every run.

* **TCP statistics** (`Telemetry`, `Segmentation`, `WindowProperties`, `Clocks`, `Ring`, `TcpHeuristic`). Three kernel
  callbacks cut the life of a flow into windows of about 1 ms, keep the ten newest in a ring and update flow-wide
  counters, in wrapping u32 and u64 arithmetic. `TcpHeuristic` has the classes with their in-place updates;
  `Telemetry` is the same engine over an unbounded log; `Segmentation` says, independently of the engine, what each
  window should be: the summary of one segment of the greedy split of the run. The ring is tied to the log, and the
  log to the segments, so `ReadWindow` speaks about the callbacks themselves.
* **Shared decision register** (`CwndStore`). A map published through an ioctl, counted references, and probes of
  several flows that write the one slot from which every flow reads its congestion window.
* **Comment remover** (`CommentRemover`) and **answer splitter** (`FenceSplitter`). Two regular-expression scanners,
  each shown to find what its pattern describes, and each with a theorem about scanning its own or printed output.
* **Link-log analyser** (`LinkLog`, `SignalDelay`, `Percentiles`, `LinkReport`) and the Python reader of the same logs
  (`PlotReader`).
* **Evolution loop** (`Sampling`, `Evolution`). A resumable double loop over an append-only collection, killed at any
  point, with the model, the builds and the experiments as arbitrary oracles.
* **Result tables** (`Rankings`). The rank of a heuristic after a stable sort, and the improvement statistic.

The environment enters as parameters: the clock, the socket's byte totals and its window limit, the outcome of the
decision logic, the answers of the model, build results and scores.

Where the code differs from what its comments or its documentation suggest, the model follows the code:

* The fields described as minima (tcp_cc/bpf_scaffolding/tcp_heuristic.h:40,43) start at 0 and stay 0
  (`MinimaStayZero`); the window threshold is therefore always 1 ms.
* `cong_control` stamps events with the machine's clock, the other callbacks with the time since the flow started.
  On a machine clock that does not go back, the windows of a run keep the two apart exactly if no acknowledgement or
  event comes between `start_ts` and `start_ts` + 1 ms after the control event that opened the window in use
  (`SeparateExactly`; for a `start_ts` below 1 ms a control event can cross as well). Events that merely come less
  than `start_ts` apart can be mixed (`SlowerPaceMixesClocks`), events at least 1 ms closer than that cannot
  (`ClocksStaySeparate`).
* The flow-wide maximum bandwidth is a u32; it is the true maximum of the closing rates exactly when no
  window brings 2^32 bits or more per second up to its closing, with bits counted in a u64 (`MaxBandwidthIsGlobal`,
  and a two-window run where the maximum is lost in `MaxBandwidthCanLoseWindow`).
* The signal delay, described as the minimum time from creation to the receiver
  (tcp_cc/evaluate/mm_thr.pl:169-170), is that minimum exactly when the samples are first-in first-out
  (`FilledIsLeast`).
* An answer without any code block ends the search with an IndexError exactly if it is asked for, that is if none of
  the attempts before it built successfully; only an empty first block reaches the message about a missing block
  (EvolveRunner.py:124,149). Otherwise the sanity check at line 153 passes exactly if one of the first blocks is not
  empty (`SanityCheckHolds`).
* Two flows share one register, so a flow may apply a decision made for another one (`OtherProbeWins`). As long as its
  map stays published it applies its own exactly if the newest write to that map since then stored the same value, or
  there was none (`OwnDecisionApplied`).
* The Perl reader skips events at or before the base time stamp, the Python reader bins them (`ReadersDisagreeAtBase`).
  On an accepted log their binnings of a kind are equal exactly if every skipped event of that kind comes at the base
  time stamp itself, brings no bytes, and shares bin 0 with a counted one (`BinningsAgree`).
* A baseline that bears the heuristic's own name and misses no more often takes its rank (`RankCountsBetter`).

## Model

| member | source | states |
|---|---|---|
| Words.Sub64IsModular | tcp_cc/bpf_scaffolding/tcp_heuristic.c:67 | unsigned subtraction gives the difference modulo 2^64 |
| Segmentation.SegmentsGreedy | tcp_cc/bpf_scaffolding/tcp_heuristic.c:57-79 | the segments of a run concatenate to it; no event of a segment is 1 ms late (mod 2^64) for its first, and each next segment starts with an event that is |
| Segmentation.GreedyUnique | tcp_cc/bpf_scaffolding/tcp_heuristic.c:57-79 | any split with these properties is the one the engine uses |
| Segmentation.MinimaStayZero | tcp_cc/bpf_scaffolding/tcp_heuristic.c:68-73 | in every run the minimum RTT and minimum bandwidth fields are 0 and the rollover threshold is 1,000,000 ns |
| Segmentation.SummarySnoc | tcp_cc/bpf_scaffolding/tcp_heuristic.c:94-145 | the field updates of one callback turn the summary of a segment into the summary of the segment with that callback |
| Segmentation.StepTracks | tcp_cc/bpf_scaffolding/tcp_heuristic.c:57-146 | one callback, rolled over or not, keeps the log equal to the windows of the segments |
| Segmentation.LogIsSummaries | tcp_cc/bpf_scaffolding/tcp_heuristic.c:57-160 | after any run the log holds, segment by segment, the summaries (times, packets, losses, ECN, RTT sum, count, maximum and average, bytes, rate), and the baseline is that of the newest segment |
| WindowProperties.WindowAt | tcp_cc/bpf_scaffolding/tcp_heuristic.c:66-76 | closing a window changes its rate only, to the one at the first event of the next segment |
| WindowProperties.WindowExtent | tcp_cc/bpf_scaffolding/tcp_heuristic.c:67-70 | on any clock a window's end is less than 1 ms (mod 2^64) after its start |
| WindowProperties.WindowsDisjointInTime | tcp_cc/bpf_scaffolding/tcp_heuristic.c:67-75 | on one nondecreasing clock consecutive starts are at least 1 ms apart and a window ends before the next starts |
| WindowProperties.ByteRangesDisjoint | tcp_cc/bpf_scaffolding/tcp_heuristic.c:62-76 | with nondecreasing totals each window's byte range ends no later than the next baseline, and never ahead of the socket |
| WindowProperties.WindowAndGap | tcp_cc/bpf_scaffolding/tcp_heuristic.c:62-98 | with nondecreasing totals a window's bytes, plus what was acknowledged after its newest acknowledgement and before the next baseline, are exactly what was acknowledged from its baseline to the next; the gap is not negative |
| WindowProperties.BytesConserved | tcp_cc/bpf_scaffolding/tcp_heuristic.c:62-98 | from any window on, recorded bytes plus the bytes in those gaps are exactly the bytes acknowledged since its baseline, and no gap is negative |
| WindowProperties.OpeningAckIsMissed | tcp_cc/bpf_scaffolding/tcp_heuristic.c:70-98 | an acknowledgement that opens a window records 0 bytes there; its bytes fall before the new baseline |
| WindowProperties.BandwidthExact | tcp_cc/bpf_scaffolding/tcp_heuristic.c:71 | the wrapped product gives the true floor quotient exactly for at most 2,305,843,009 bytes |
| WindowProperties.ClosedRate | tcp_cc/bpf_scaffolding/tcp_heuristic.c:67-71 | the rate stored in any closed window is the true floor quotient exactly when its bytes stay within that bound |
| WindowProperties.OpenRate | tcp_cc/bpf_scaffolding/tcp_heuristic.c:98-99 | the rate of the window in use is the floor quotient at its newest acknowledgement made after its start, within the same bound, and 0 before |
| WindowProperties.MaxBandwidthIsGlobal | tcp_cc/bpf_scaffolding/tcp_heuristic.c:71-72 | the u32 field is the greatest closing rate of every window ever closed exactly when for every closed segment 8 * 10^9 times its bytes, modulo 2^64, is below 2^32 times the nanoseconds up to the event that closes it |
| WindowProperties.SmallWindowsKeepMax | tcp_cc/bpf_scaffolding/tcp_heuristic.c:71-72 | at most 536,870 bytes in every window is enough for that |
| WindowProperties.MaxBandwidthCanLoseWindow | tcp_cc/bpf_scaffolding/tcp_heuristic.c:72 | a run whose only closing rate is 4,294,968,000 bit/s leaves 704 in the field |
| WindowProperties.AverageBetween | tcp_cc/bpf_scaffolding/tcp_heuristic.c:108-110 | with fewer than 2^33 samples sum and count do not wrap and the average is the floor quotient, between the extremes |
| WindowProperties.WindowRtts | tcp_cc/bpf_scaffolding/tcp_heuristic.c:102-111 | a window's maximum is the greatest nonzero sample of its segment, its average lies within any bounds of them |
| WindowProperties.MaxRttOfRun | tcp_cc/bpf_scaffolding/tcp_heuristic.c:103 | the flow-wide maximum is the greatest sample of the whole run |
| WindowProperties.MaxRttOfWindows | tcp_cc/bpf_scaffolding/tcp_heuristic.c:103-106 | it is also the greatest maximum of every window ever opened, evicted ones included |
| WindowProperties.MaxCwndOfRun | tcp_cc/bpf_scaffolding/tcp_heuristic.c:164-165 | the greatest window seen is the greatest decision of the run, before clamping |
| WindowProperties.NewestAckOfRun | tcp_cc/bpf_scaffolding/tcp_heuristic.c:88-90 | ACK time and bytes in flight are those of the newest acknowledgement, 0 before the first |
| Clocks.RealTimeOfStamp | tcp_cc/bpf_scaffolding/tcp_heuristic.c:88-155 | the machine time can be recovered from a callback's stamp, whichever clock it used |
| Clocks.JoinsAcrossClocks | tcp_cc/bpf_scaffolding/tcp_heuristic.c:67-155 | an event joins a window opened by the other clock exactly if that was a control event between start_ts and start_ts + 1 ms before, or, for a control event, if start_ts and the time since the opening are less than 1 ms together |
| Clocks.SeparateExactly | tcp_cc/bpf_scaffolding/tcp_heuristic.c:57-155 | no window of a run mixes the clocks exactly if no event of the run comes at such a time after the opening of the window in use |
| Clocks.ClocksStaySeparate | tcp_cc/bpf_scaffolding/tcp_heuristic.c:88-155 | if consecutive events are at least 1 ms less than start_ts apart, no window mixes the clocks |
| Clocks.SlowerPaceMixesClocks | tcp_cc/bpf_scaffolding/tcp_heuristic.c:88-155 | gaps merely below start_ts allow an acknowledgement to join a window of control events |
| Clocks.SingleClock | tcp_cc/bpf_scaffolding/tcp_heuristic.c:88-155 | with start_ts = 0, or without control events, stamps are nondecreasing when machine time is |
| Ring.EntryAt | tcp_cc/bpf_scaffolding/tcp_heuristic.c:19-24 | counting i slots back around the ring finds the i-th newest retained entry |
| Ring.Append | tcp_cc/bpf_scaffolding/tcp_heuristic.c:12-18 | advancing the head and writing there appends to the log and evicts the oldest of ten |
| Ring.ReplaceNewest | tcp_cc/bpf_scaffolding/tcp_heuristic.c:94-99 | writing through the head pointer changes the newest entry only |
| TcpHeuristic.HeuristicState.constructor | tcp_cc/bpf_scaffolding/tcp_heuristic.c:38-47 | a zeroed state is that of the empty run, with head and count 0 |
| TcpHeuristic.HeuristicState.HistoryGet | tcp_cc/bpf_scaffolding/tcp_heuristic.c:19-24 | NULL exactly beyond the retained windows, otherwise the slot of the i-th newest |
| TcpHeuristic.HeuristicState.HistoryAppend | tcp_cc/bpf_scaffolding/tcp_heuristic.c:12-18 | the ring then holds the log with a cleared window appended |
| TcpHeuristic.HeuristicState.RollIfNeeded | tcp_cc/bpf_scaffolding/tcp_heuristic.c:57-79 | the state becomes the engine's state after its roll; a newest window always exists afterwards |
| TcpHeuristic.HeuristicState.RecordAck | tcp_cc/bpf_scaffolding/tcp_heuristic.c:88-111 | the fields stay what the engine computes from the run, now one acknowledgement longer |
| TcpHeuristic.HeuristicState.RecordEvent | tcp_cc/bpf_scaffolding/tcp_heuristic.c:121-145 | the same for a congestion-avoidance event |
| TcpHeuristic.HeuristicState.RecordControl | tcp_cc/bpf_scaffolding/tcp_heuristic.c:155-165 | the same for a control decision |
| TcpHeuristic.HeuristicState.RecordUndo | tcp_cc/kern_mod/tcp_heuristic.template:219-221 | an undo decision enters the greatest window seen and nothing else |
| TcpHeuristic.HeuristicState.ReadWindow | tcp_cc/bpf_scaffolding/tcp_heuristic.c:12-24 | after any run the i-th newest window in the ring is that of the i-th newest segment of the callbacks, for i below min(segments, 10) and only those |
| TcpHeuristic.RetainedWindow | tcp_cc/bpf_scaffolding/tcp_heuristic.c:12-24 | the ten newest entries of the log are the windows of the ten newest segments |
| TcpHeuristic.RetainedBytes | tcp_cc/bpf_scaffolding/tcp_heuristic.c:62-98 | the bytes of the windows in the ring plus the gaps behind them are what was acknowledged since the oldest one's baseline, so the ring never claims more |
| TcpHeuristic.RetainedPeaks | tcp_cc/bpf_scaffolding/tcp_heuristic.c:103-106 | the flow-wide maximum RTT bounds every window in the ring and is their maximum until the first eviction |
| TcpHeuristic.AckWindow | tcp_cc/bpf_scaffolding/tcp_heuristic.c:94-111 | the statement-by-statement window update equals the engine's |
| TcpHeuristic.EventWindow | tcp_cc/bpf_scaffolding/tcp_heuristic.c:125-145 | the switch over event kinds equals the engine's update |
| TcpHeuristic.HeuristicCa.constructor | tcp_cc/bpf_scaffolding/tcp_heuristic.c:38-47 | a new flow has an empty run and the current clock as its start |
| TcpHeuristic.HeuristicCa.Release | tcp_cc/bpf_scaffolding/tcp_heuristic.c:50-55 | the state is gone, the start time stays |
| TcpHeuristic.HeuristicCa.PktsAcked | tcp_cc/bpf_scaffolding/tcp_heuristic.c:81-112 | a missing state, a missing sample or a negative RTT changes nothing; otherwise the run grows by one acknowledgement on the flow's clock |
| TcpHeuristic.HeuristicCa.CwndEvent | tcp_cc/bpf_scaffolding/tcp_heuristic.c:114-146 | the run grows by the event, on the flow's clock |
| TcpHeuristic.HeuristicCa.ApplyDecision | tcp_cc/kern_mod/tcp_heuristic.template:189-208 | the run grows by the decision on the machine's clock, and the socket gets the clamped decision |
| TcpHeuristic.HeuristicCa.CongControl | tcp_cc/bpf_scaffolding/tcp_heuristic.c:148-167 | the same with the decision read from the shared register |
| TcpHeuristic.HeuristicCa.UndoCwnd | tcp_cc/kern_mod/tcp_heuristic.template:210-222 | only the fallback without state is clamped; a real decision is returned as it is |
| CwndStore.StepKeepsCounted | tcp_cc/bpf_scaffolding/bpf_map_hack.h:21-131 | after any action references are exactly the open handles plus the module's one on the published map; gets minus puts is 1 exactly while something is published; a published map is alive |
| CwndStore.RegisterPublishes | tcp_cc/bpf_scaffolding/bpf_map_hack.h:37-47 | registering publishes the descriptor's map, with one reference more than it has handles and its value kept |
| CwndStore.ReRegisterIsNeutral | tcp_cc/bpf_scaffolding/bpf_map_hack.h:37-47 | registering the published map again leaves all references as they were |
| CwndStore.UnregisterUndoesRegister | tcp_cc/bpf_scaffolding/bpf_map_hack.h:37-55 | registering and unregistering leaves the maps as unregistering alone would have |
| CwndStore.ReleaseDropsOne | tcp_cc/bpf_scaffolding/bpf_map_hack.h:49-122 | unregistering and unloading leave nothing published, all handles as they were, and exactly the maps that a handle holds, with their values |
| CwndStore.NothingHappens | tcp_cc/bpf_scaffolding/bpf_map_hack.h:31-59 | a failed copy, a bad descriptor, an unknown command and a lookup change nothing |
| CwndStore.FreedOnlyWhenUnused | tcp_cc/bpf_scaffolding/bpf_map_hack.h:44-51 | after any action a map is alive exactly if a handle or the module still holds it |
| CwndStore.SlotIsNewestValue | tcp_cc/bpf_scaffolding/bpf_map_hack.h:133-147 | a live map holds what the newest action that set it put there, whichever flow that was |
| CwndStore.ValueHasWriter | tcp_cc/bpf_scaffolding/bpf_prog.h:47-51 | any value but the initial 0 was written by a probe of the run |
| CwndStore.AppliedWindow | tcp_cc/bpf_scaffolding/tcp_heuristic.c:164-178 | after any interleaving a flow decides for the newest value of the published map, its initial 0 or written by a probe, or for 2 if there is none, and the window it applies is the nearest one in [2, limit] |
| CwndStore.DecisionMeaning | tcp_cc/bpf_scaffolding/tcp_heuristic.c:169-179 | a flow decides for the value under key 0 of the published map, and for 2 when nothing is published or the map has no such key |
| CwndStore.OwnDecisionApplied | tcp_cc/bpf_scaffolding/bpf_prog.h:47-51 | while its map stays published, a flow reads its own probe's decision exactly if the newest write to that map since then, by whichever probe, stored the same value, or there was none |
| CwndStore.OwnDecisionWhenQuiet | tcp_cc/bpf_scaffolding/bpf_map_hack.h:21-55 | the same for any actions among which nothing registers a descriptor, unregisters or unloads |
| CwndStore.SlotAfter | tcp_cc/bpf_scaffolding/bpf_map_hack.h:133-147 | what flows read from a map that stays published is the newest probe write to it, or what it held before |
| CwndStore.LastWriteIsNewest | tcp_cc/bpf_scaffolding/bpf_prog.h:47-53 | that write goes to the map, and no later action writes to it |
| CwndStore.OtherProbeWins | tcp_cc/bpf_scaffolding/bpf_prog.h:47-51 | with another flow's probe in between it reads that flow's decision |
| CwndStore.ClampedIsUsable | tcp_cc/bpf_scaffolding/tcp_heuristic.c:166 | the clamp is the window in [2, limit] nearest to the decision exactly when the limit is at least 2 |
| CwndStore.NearestUnique | tcp_cc/bpf_scaffolding/tcp_heuristic.c:166 | there is only one such window |
| CwndStore.CwndDevice.CwndIoctl | tcp_cc/bpf_scaffolding/bpf_map_hack.h:16-62 | command 0 publishes the descriptor's map, 1 publishes nothing, any other and the two failing registrations keep what is published; handles stay, and each case has its result code |
| CwndStore.CwndDevice.RegisterMap | tcp_cc/bpf_scaffolding/bpf_map_hack.h:37-47 | get, put and publish in that order give the published state, or nothing for a bad descriptor |
| CwndStore.CwndDevice.DestroyHack | tcp_cc/bpf_scaffolding/bpf_map_hack.h:116-122 | unloading drops the module's reference, if it has one, and publishes nothing any more |
| CwndStore.CwndDevice.LookupCwnd | tcp_cc/bpf_scaffolding/bpf_map_hack.h:133-147 | fails exactly if nothing is published or the map has no key 0; otherwise its value |
| CwndStore.CwndDevice.CongControlLogic | tcp_cc/bpf_scaffolding/tcp_heuristic.c:169-179 | the published value, or 2 |
| CwndStore.CwndDevice.ProbeUpdate | tcp_cc/bpf_scaffolding/bpf_prog.h:47-53 | the probe's own map gets the value, published or not |
| CommentRemover.ScannerIsPattern | utils.py:12-15 | at every position the scanner takes a token of n characters exactly if the pattern's kinds of match, with literals in single or in double quotes, allow n there |
| CommentRemover.RemoveStep | utils.py:16 | the first token is kept or replaced by a space, and the rest of the text is treated in the same way |
| CommentRemover.LexIsLossless | utils.py:16 | the tokens put together are the input |
| CommentRemover.NoCloseKept | utils.py:5-16 | removal never creates a star-slash |
| CommentRemover.QuoteKept | utils.py:5-16 | an unterminated literal stays unterminated after removal, from either escape state |
| CommentRemover.NextTokenKept | utils.py:5-16 | the first token of the output is the first token of the input, with a comment turned into a space |
| CommentRemover.RescanIsBlank | utils.py:5-16 | scanning the output of any input gives the input's tokens with each comment replaced by one space |
| CommentRemover.RemoveIsClean | utils.py:5-16 | no closed comment is left, all literals survive verbatim and in order, and removal is idempotent |
| FenceSplitter.FindTicksMeaning | llm_wrappers.py:35 | the backticks that end a code are the first three in a row after it began, and none are missed |
| FenceSplitter.MatchIsPattern | llm_wrappers.py:35 | the matcher accepts at a position exactly the block the text has there whose language is letters and whose code contains no index at which three backticks begin |
| FenceSplitter.FencedBlockMatches | llm_wrappers.py:35 | spelled out: three backticks, ASCII letters, a line end, code in which no three backticks begin before its own three, match as that language and code |
| FenceSplitter.SearchIsLeftmost | llm_wrappers.py:41 | no match starts inside the text skipped before a found block, nor anywhere if none is found |
| FenceSplitter.ParseIsSearch | llm_wrappers.py:41-48 | each block of the parse is the leftmost one of the text left at its turn, and the tail has none |
| FenceSplitter.ParseIsLossless | llm_wrappers.py:40-49 | untrimmed gaps, blocks and tail concatenate to the answer |
| FenceSplitter.StripIsStripped | llm_wrappers.py:43-51 | stripping cuts off the white space at both ends, all of it and nothing else |
| FenceSplitter.StrippedUnique | llm_wrappers.py:43-51 | no other string is that |
| FenceSplitter.SplitExplanationAndCode | llm_wrappers.py:31-62 | the loop returns the stripped gaps, languages and codes of the parse, and one text more exactly if the tail is not all white space, then the stripped tail; the final insertion never happens |
| FenceSplitter.ParseOfPrint | llm_wrappers.py:35-49 | parsing printed blocks gives back their gaps, languages, tail, and codes with their line end |
| FenceSplitter.SplitOfPrint | llm_wrappers.py:31-62 | printing trimmed pieces free of fences and splitting again recovers every list |
| LinkLog.CountEvent | tcp_cc/evaluate/mm_thr.pl:79-121 | one event's updates keep every hash, sum and list equal to its meaning over the events counted |
| LinkLog.ReadLog | tcp_cc/evaluate/mm_thr.pl:42-123 | the loop stops with the first error, which one included, or its hashes hold per-bin bits, sums, delays and least delays of exactly the events after the base time |
| LinkLog.FirstFaultStops | tcp_cc/evaluate/mm_thr.pl:45-121 | a log is accepted exactly if every line is in order; otherwise the error is that of the first line that is not: a second base, a malformed line, an event before any base, or after it an empty bin width, an unknown kind, or a missing, negative or too long delay |
| LinkLog.RecordsAreEvents | tcp_cc/evaluate/mm_thr.pl:75-121 | an accepted log counts exactly its events after the base, in order, each with the time since the base, the kind, eight times the bytes and the delay of its line |
| LinkLog.DelaysAreLogged | tcp_cc/evaluate/mm_thr.pl:112 | the delays kept are those of the departure lines after the base, in order |
| LinkLog.SampleIsLogged | tcp_cc/evaluate/mm_thr.pl:115-118 | the sample kept for a creation time is the least delay logged for a packet created then, and there is none exactly if no such packet departed |
| LinkLog.LatestIsLatest | tcp_cc/evaluate/mm_thr.pl:83 | the last time stamp kept is the greatest time of a counted event |
| LinkLog.LeastDelayIsLeast | tcp_cc/evaluate/mm_thr.pl:115-118 | the delay kept per creation time is the least of the packets created then, and one of theirs |
| LinkLog.SumsAreBits | tcp_cc/evaluate/mm_thr.pl:75-113 | in an accepted log the sum of a kind is eight times the bytes of its events after the base time stamp, no more and no less |
| SignalDelay.Backfill | tcp_cc/evaluate/mm_thr.pl:173-177 | every millisecond between first and last sample ends up as the wait for the next sample plus its delay; samples are unchanged |
| SignalDelay.FilledIsLeast | tcp_cc/evaluate/mm_thr.pl:169-177 | these values are true minima over all later samples exactly when no sample is overtaken |
| SignalDelay.ArrivalsNondecreasing | tcp_cc/evaluate/mm_thr.pl:169-177 | then creation time plus delay is nondecreasing |
| Percentiles.PickSplits | tcp_cc/evaluate/mm_thr.pl:163-167 | the picked delay is one of the n delays, with at least pn/100 + 1 (rounded down) at most as large and n - pn/100 at least as large |
| Percentiles.PicksAscend | tcp_cc/evaluate/mm_thr.pl:165-167 | p50, p95 and p99 are in order |
| Percentiles.SortPullsOut | tcp_cc/evaluate/mm_thr.pl:163 | sorting gives the same list whichever of the values is inserted last |
| Percentiles.PickIgnoresOrder | tcp_cc/evaluate/mm_thr.pl:163-167 | the picks do not depend on the order of the log |
| LinkReport.OccupancySeries | tcp_cc/evaluate/mm_thr.pl:228-236 | the loop's running value is the flow from the first bin on |
| LinkReport.OccupancyConserved | tcp_cc/evaluate/mm_thr.pl:228-236 | occupancy after a bin is all bits arrived up to it less all bits departed up to it |
| LinkReport.FinalOccupancy | tcp_cc/evaluate/mm_thr.pl:228-236 | after the last bin it is the arrival sum less the departure sum |
| LinkReport.OccupancyNonNegative | tcp_cc/evaluate/mm_thr.pl:228-236 | it is never negative on a sorted log in which no prefix is overdrawn |
| LinkReport.FifoSamples | tcp_cc/evaluate/mm_thr.pl:115-118 | packets leaving in creation order give samples of which none is overtaken |
| LinkReport.SignalIsMinimum | tcp_cc/evaluate/mm_thr.pl:169-177 | then no packet created at or after t arrives before t plus the filled-in delay, and one arrives just then |
| LinkReport.RefusalMeaning | tcp_cc/evaluate/mm_thr.pl:149-200 | of a log whose lines are in order, the first of these that holds refuses it: no counted event, none later than the first, no departure, no capacity bits, one bin only |
| LinkReport.Analyse | tcp_cc/evaluate/mm_thr.pl:42-236 | a log is reported on, with percentiles, signal delays for exactly the times between first and last creation, and occupancies from the first to the last bin with an event, or refused, for exactly the stated reason |
| PlotReader.ReadDownFile | tcp_cc/evaluate/utils.py:29-82 | the Python loop's dictionaries are the per-bin bits of all events after a base time stamp, whatever their time |
| PlotReader.PlotFaultStops | tcp_cc/evaluate/utils.py:39-56 | the Python reader fails with the first line that is malformed, or an event before any base or with an empty bin width, and only then |
| PlotReader.PlotRecordsEvents | tcp_cc/evaluate/utils.py:41-60 | every event is recorded in its turn, at its time from the newest base before it, with its kind and eight times its bytes |
| PlotReader.BinHoldsItsBits | tcp_cc/evaluate/mm_thr.pl:86-113 | a bin of the analyser holds eight times the bytes of exactly the events of its kind whose time since the base falls into it |
| PlotReader.BinningsAgree | tcp_cc/evaluate/utils.py:41-76 | on a log the analyser accepts, both binnings of a kind are equal exactly if every skipped event of that kind comes at the base time stamp itself, brings no bytes, and a counted event of the kind falls into bin 0 |
| PlotReader.ReadersAgree | tcp_cc/evaluate/utils.py:29-82 | the Python reader accepts such a log, and each of its three dictionaries equals the analyser's exactly under that condition |
| PlotReader.ReadersDisagreeAtBase | tcp_cc/evaluate/utils.py:49-66 | an input on which they differ: an event of one byte at the base time stamp is binned by Python only |
| Sampling.Sample | EvolveRunner.py:120-160 | the retry loop yields the revisions, code, status and crash that the answers and builds determine |
| Sampling.RetriesStop | EvolveRunner.py:123-151 | at most n revisions, none after a successful build |
| Sampling.NoBlockEndsLoop | EvolveRunner.py:123-151 | the loop fails on a missing block exactly if some answer has none and no attempt before it builds a non-empty first block |
| Sampling.SanityCheckHolds | EvolveRunner.py:123-153 | that is when a sample ends with an IndexError; otherwise it completes exactly if one of the first n first blocks is not empty, and if none is, an unbound or a stale value fails the check |
| Sampling.NonEmptyBlockIsBuilt | EvolveRunner.py:123-125 | a loop that meets no such answer builds something exactly if one of the first n first blocks is not empty |
| Sampling.CompletedIsSound | EvolveRunner.py:123-160 | final code and status come from the newest build, the experiment ran exactly for a success |
| Sampling.CompletedFollows | EvolveRunner.py:123-160 | the document holds every attempt up to the first success or the last one, each as its answer and build determine it; final code and status are those of the newest attempt with code, and the result is the experiment's exactly after a success |
| Evolution.RankingIsSorted | EvolveRunner.py:66-79 | the candidates are exactly the valid programs so far, best first, ties in insertion order |
| Evolution.ParentsDominate | EvolveRunner.py:81-82 | the two parents outrank every other program that was built and scored by then, and the two programs recorded are their final codes, in the same order |
| Evolution.TwoAreNeeded | EvolveRunner.py:72-73 | there is a choice exactly when two programs are eligible |
| Evolution.BestImproves | EvolveRunner.py:66-83 | the best score never falls from one iteration to the next |
| Evolution.RestartsAreOneRun | EvolveRunner.py:85-97 | any sequence of killed and restarted runs stores what one run could have stored |
| Evolution.NoPairTwice | EvolveRunner.py:90-96 | no pair of iteration and sample is stored twice |
| Evolution.PairsStayUnique | EvolveRunner.py:90-96 | a collection without duplicate pairs stays without |
| Evolution.EachPairOnce | EvolveRunner.py:85-97 | when runs on a collection without duplicate pairs have completed the range, each of its pairs is stored exactly once |
| Evolution.RepeatStoresNothing | EvolveRunner.py:90-96 | repeating a completed range stores nothing |
| Evolution.EarlierFrozen | EvolveRunner.py:86-96 | once iteration k has a document, earlier iterations get no more |
| Evolution.SelectFrozen | EvolveRunner.py:66-82 | later iterations do not change the choice of parents |
| Evolution.SameParents | EvolveRunner.py:86-118 | over any restarts all documents stored for one iteration record the same parents |
| Evolution.FreshNumber | EvolveRunner.py:48-51 | the naming loop ends with the least unused number |
| Evolution.EvolutionRunner.GetPriorityPrograms | EvolveRunner.py:63-82 | fails exactly with fewer than two valid programs, otherwise picks the selection |
| Evolution.EvolutionRunner.FindOne | EvolveRunner.py:90-93 | whether the pair is stored |
| Evolution.EvolutionRunner.EvolveSample | EvolveRunner.py:89-163 | a sample is skipped, stored as its oracle determines, or ends the run with a reason |
| Evolution.EvolutionRunner.EvolveIteration | EvolveRunner.py:86-163 | an iteration that goes on has stored all its samples |
| Evolution.EvolutionRunner.Evolve | EvolveRunner.py:85-163 | killed at any insertion or not, the run appends only allowed documents, each recording its own outcome; it ends as finished only when the range is complete, and then, if it started without duplicates, with each pair stored exactly once |
| Rankings.RankCountsBetter | hotnets_results/table.py:32-43 | the rank is 1 plus the number of baselines with at most the heuristic's miss ratio exactly when none of those bears its name |
| Rankings.RankIsFirstPlace | hotnets_results/table.py:38-43 | the rank is the place of the first entry with the heuristic's name in an ascending list of the baselines and the heuristic |
| Rankings.RankCounts | hotnets_results/table.py:28-43 | each counter is the number of evaluations with that rank, and they sum to the evaluations |
| Rankings.ImprovementRange | hotnets_results/boxplot.py:96-99 | the statistic is undefined exactly if neither cache misses, and lies in (-1, 1] for a positive FIFO ratio |
| Rankings.ImprovementValue | hotnets_results/boxplot.py:96-99 | the statistic is the difference of the ratios as a fraction of the greater one |
| Rankings.ImprovementFalls | hotnets_results/boxplot.py:96-99 | fewer misses score strictly higher across both branches |
| Rankings.ContainsMeaning | hotnets_results/boxplot.py:105 | the test for evolved policies looks for the name anywhere in the string |
| Rankings.OracleSnoc | hotnets_results/boxplot.py:91-107 | the running maximum stays the statistic of the least eligible ratio |
| Rankings.Oracles | hotnets_results/boxplot.py:88-107 | both oracles are the statistic of their least eligible ratio, unless a division by zero ends the loop |

## Left out

- TcpHeuristic.HeuristicCa.constructor: models an allocation that succeeds; the source reads the new state before it checks the allocation.
- Segmentation.LogIsSummaries: the average is stated as 0 when the u64 sample counter has wrapped to 0, where the source would divide by zero after 2^64 samples.
- CwndStore.StepKeepsCounted: an ioctl, a probe's update and a lookup are single steps; interleavings inside one of them, and read-copy-update protection, are not modelled.
- LinkReport.Analyse: percentile positions use 95n/100 in integers where the source multiplies doubles; throughput figures, averages, the unused percentile of the signal delays and the plot are not modelled.
- LinkLog.ReadLog: lines arrive already split into fields; a line with missing or non-numeric fields is one malformed case, and times, sizes and delays are whole numbers.
- PlotReader.ReadDownFile: starts from the same split lines; a malformed line is an error whatever Python exception it raises, and the summary-file reader next to it is not modelled.
- PlotReader.ReadersAgree: a comment line is a base time stamp for both readers or for neither; comments that only Python takes for one (it looks for the words anywhere in the line and reads the last field), or from which it reads another number, are not modelled.
- Sampling.Sample: an experiment that reports success always has a score; prompts, logs and build output are not recorded.
- Evolution.EvolutionRunner.Evolve: the collection returns documents in insertion order and an insertion is atomic; the start-up record in the information collection is not modelled.
- Rankings.RankCounts: evaluations come with their baselines already selected; the checks on the data set and the printed table are not modelled.
- Rankings.Oracles: miss ratios are non-negative reals; averages and box plots are not modelled.
- FenceSplitter.SplitExplanationAndCode: returns the three lists only, without the usage statistics of the model client.
- The decision logic generated for the kernel, the undo logic and the cache priority functions are arbitrary inputs: their code is not in the repository.
- Kernel registration, the character device, kprobe attachment and the socket calls of the congestion-control modules.
- Language-model clients, the database driver, build and evaluation subprocesses, libCacheSim, the traffic generators and shell scripts.
- File reading and git information in utils.py, and the footprint and simulation wrappers under webcache, which only call into libraries.

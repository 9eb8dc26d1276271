# Verified models of an operating-systems course repository

The repository holds four bodies of code whose correctness is a matter of whole runs rather than
of single functions: a simulator of page-replacement policies, kernel code for supplementary
groups, notifier chains and a semaphore, a bounded buffer over kernel semaphores, and the file
operations of a FUSE kernel module. This project models each of them in Dafny and proves what it
is for. `dafny verify dfyconfig.toml` checks everything.

## What is modelled

**Page replacement.** `OptSpec`, `ClockSpec` and `AgingSpec` say what one access does to the
state of each simulator; the classes `Opt.Simulator`, `Clock.Simulator` (with
`Clock.CircularQueue`) and `Aging.Simulator` do it in place, loop by loop, and are proved to
reach the states that the functions define. About those states:

- `Belady` defines Belady's policy and an arbitrary policy (any sequence of resident sets a
  memory of `k` frames can go through) and proves that Belady's faults are the fewest over every
  prefix of every trace. The exchange argument is a forward simulation: at every horizon the
  number of soon-needed pages that the other policy holds beyond Belady's is at most the number
  of faults it has spent more.
- The Opt simulator intends Belady's policy, but its counters go wrong: `update_counters` restarts
  a counter that has passed -1 from the next use of the page *being accessed*, not of the page in
  the frame (`opt.py:43-44`). `OptProps` proves the exact condition. Counters are exact at every
  decision of a run if and only if no access takes that branch for a frame of another page,
  unless neither page is used again; and then the run is Belady's and its fault count is optimal.
  `OptExamples.RestartCanCostAFault` is a trace of five reads, two frames, where the simulator
  faults four times and three is possible. From the load of a page to just after its next use the
  counter is exact without any condition.
- `OptTraces` tells from hits and the trace when a run takes that branch with effect: a page is
  accessed in a row so often that its counter is spent, another page is accessed, and one of the
  two is used again (`RestartsSafelyIff`). `OptBelady` shows that up to there the hits are those of
  Belady's policy, which the trace determines, so that the condition is exact on the trace and the
  number of frames, evictions included (`RestartsSafelyIffOnTrace`). With room for all pages it is
  a matter of parity (`RoomyRunIsSafeIff`), and on quiet traces the branch is harmless however many
  frames there are (`QuietTraceRestartsSafely`).
- Clock refines plain second chance, access by access, for every trace: dirty bits and the flush
  daemon change what is written, never what is evicted. The second search for a victim always
  succeeds. Clock counts a page put into a free frame as a hit, so its fault count is that of the
  evictions; the model counts as the code does.
- An aging value is the slot's reference history of the last eight ticks, and the victim is the
  slot with the least recent history. Removing a page leaves its number, reference and aging value
  in the slot, because the code assigns to differently named attributes; the model leaves them too.
- Modifications of pages are written to disk once, or their pages are resident and dirty: always
  for Clock, and for Opt and Aging except where page 0 meets a free frame, because free frames carry
  page number 0 and the scans do not look at `in_use`. Both exceptions are exact, and can be told
  from the trace. In Opt a write to page 0 marks a free frame in place of its own and is lost, if
  and only if page 0 was first read and there is still room; `R 0, W 0` with two frames does it. In
  Aging every write to page 0 marks a free slot and is lost while there is room; `W 0` with one
  slot does it. A new page that a read then brings into the marked slot is taken for dirty, and a
  page is written that nobody modified; `W 0, R 7` does that.

**Supplementary groups.** Ids in two-level block storage, copied in and out block by block,
sorted in place by a Shell sort and searched by bisection. Each pass of the sort leaves the ids
in order at its stride and keeps the order at every other stride (`StrideOrder`), whatever the
number of ids. The search subtracts unsigned ids and looks at the sign of the 32-bit result, so it
can go the wrong way: it answers membership correctly for every id if and only if the smallest id
is at most 2^31 below the middle one and the largest less than 2^31 above it. Ids all less than
2^31 apart satisfy this.

**Notifier chains.** A linked list in order of priority and, among equals, of registration.

**The semaphore.** `WaitQueue` is the linked wait queue, stale tail pointer included, and the
locked sections of down and up; `SemaphoreProtocol` is what any number of processes can do with
them, with the gap between a process's unlock and its `schedule()` open to every other process;
`SemaphoreMachine` runs the one on the other.

**The bounded buffer.** Every instruction of `send`, `recv`, `wait_h` and `signal_h` is a step of
`BufferProtocol`, with any number of processes and any number of slots. `mutx` on line 47 of the
source is read as `mutex`, and `wakeup` wakes every sleeper on its address. `BufferProofs` is about
what is written and read; `BufferCalls` ties that to what `send` is called with and `recv` returns.

**FUSE file code.** Readahead batching, direct I/O in rounds, and the XTEA scrambling of lock
owners. In direct I/O the limit on the size of a request bounds the pages to pin and not the
bytes sent. `DirectIOLimits.CallFitsIff` says which calls keep every request within the limit,
whatever their rounds meet, in terms of what the caller passes in: those that want no more than the
limit, start on a page boundary where the limit fits, or have a limit of nearly 2^32, because a
round that pins nothing at an unaligned address takes the wrapped-around room for pages.
`PinnedFitsIff` is the condition for the requests that do have pages pinned: with a limit of whole
pages, an aligned start or a limit of at least 32 pages is enough. A failed pin or an overlong reply
in a later round hides the bytes already moved; `HiddenIff` says for which answers, round by round.
A call goes on only through rounds that move bytes and rounds that pin nothing on a page boundary,
and `RunsForEverIff` says which calls can be kept going by the latter for ever.

## Model

| member | source | states |
|---|---|---|
| Belady.NextUseIsFirst | project03/adp59-project3/opt.py:47-76 | the next use of a page is the first index from now on at which it is accessed, or the trace length plus one when there is none |
| Belady.DominanceStep | project03/adp59-project3/opt.py:239-242 | one access of Belady's policy against one access of any policy: the lead of the other at every horizon is paid for by the faults it has spent more |
| Belady.BeladyIsAPolicy | project03/adp59-project3/opt.py:239-242 | Belady's policy never holds more pages than there are frames and is itself a policy of the compared kind |
| Belady.BeladyIsOptimal | project03/adp59-project3/opt.py:239-242 | evicting the page needed farthest in the future faults no more often than any other policy, over every prefix of every trace, for every number of frames |
| OptSpec.FirstFree | project03/adp59-project3/opt.py:121-139 | the search for a free frame finds the first one not in use |
| OptSpec.LastMatch | project03/adp59-project3/opt.py:79-89 | the linear scan returns the last frame whose VPN field matches, in use or not, and nothing only when none matches |
| OptSpec.UseListHead | project03/adp59-project3/opt.py:64-68 | the head of a page's list is its first use from now on, or the end marker |
| OptSpec.UseListIsTheUses | project03/adp59-project3/opt.py:258-287 | a page's list holds exactly its uses from a point on, in increasing order, and then the end marker |
| OptSpec.AdvanceKeepsUses | project03/adp59-project3/opt.py:37-39 | popping the accessed page's list moves every list on, after which the time until next access is the true distance for every page |
| OptSpec.VictimScanIsMax | project03/adp59-project3/opt.py:148-159 | the victim is the first frame with the largest counter, and frame 0 when no counter is positive |
| OptSpec.FaultShape | project03/adp59-project3/opt.py:120-175 | a fault replaces one frame, the first free one or else the victim's, drops exactly the victim from the index, and counts a write exactly when a dirty page is dropped |
| OptSpec.EvictFrees | project03/adp59-project3/opt.py:142-145 | after an eviction the retry finds the frame just freed |
| OptSpec.FaultKeepsTable | project03/adp59-project3/opt.py:101-175 | a fault keeps the index the exact inverse of the frame table on the frames in use |
| OptSpec.HitKeepsTable | project03/adp59-project3/opt.py:225-234 | so does a hit |
| OptSpec.Step | project03/adp59-project3/opt.py:185-198 | each access keeps the invariant of runs: index and table inverse, lists equal to the remaining uses, trace equal to what is left |
| OptProps.StateAt | project03/adp59-project3/opt.py:178-214 | every state of every run satisfies that invariant |
| OptProps.ResidentSize | project03/adp59-project3/opt.py:120-139 | resident pages are distinct, one to a frame in use |
| OptProps.AdvanceExactIff | project03/adp59-project3/opt.py:40-44 | bringing exact counters forward keeps them exact if and only if every frame about to restart holds the accessed page, or neither page is used again |
| OptProps.ServeKeepsExact | project03/adp59-project3/opt.py:101-175 | serving an access keeps counters exact |
| OptProps.RunExactIff | project03/adp59-project3/opt.py:28-44 | over a run, counters are exact at every decision if and only if no access takes the restarting branch unsafely |
| OptProps.VictimIsFarthest | project03/adp59-project3/opt.py:148-164 | with exact counters the victim is a page needed farthest in the future |
| OptProps.StepIsBelady | project03/adp59-project3/opt.py:217-243 | with exact counters one access of the simulator is one access of Belady's policy |
| OptProps.FaultsAreCounted | project03/adp59-project3/opt.py:91-99 | the fault counter is the number of accesses to pages not resident |
| OptProps.OptIsOptimal | project03/adp59-project3/opt.py:217-247 | a run whose counters stay exact has, at every moment, no more faults than any policy with as many frames |
| OptExamples.RestartCanCostAFault | project03/adp59-project3/opt.py:43-44 | on the trace 1 1 2 3 1 with two frames the simulator faults four times, while a policy with three faults exists |
| OptRuns.StepKeepsFrame | project03/adp59-project3/opt.py:40-42 | a page that stays resident keeps its frame, and its counter goes down by one until it is -1 |
| OptRuns.CounterExactSinceLoad | project03/adp59-project3/opt.py:40-76 | from a page's load until just after its next use, its counter is the index of that use minus the time |
| OptRuns.ScanAgreesIff | project03/adp59-project3/opt.py:79-89 | the linear scan finds the frame the index names if and only if the page is not 0 or the table is full |
| OptRuns.WritesAreConserved | project03/adp59-project3/opt.py:166-175 | writes so far, dirty resident pages and misplaced marks add up to the clean-to-dirty changes of resident pages |
| OptRuns.ConservedIff | project03/adp59-project3/opt.py:229-231 | no modified page is dropped without its write if and only if no clean page 0 is written while a frame is free |
| OptTraces.WritesAreConservedIff | project03/adp59-project3/opt.py:217-234 | the same condition on the trace: no write to page 0, which was first read, while fewer pages have been accessed than there are frames |
| OptExamples.WriteToPageZeroIsLost | project03/adp59-project3/opt.py:229-231 | with reads and writes R 0, W 0 and two frames one page is modified, none is written and none is left dirty; the scan names another frame than the index |
| OptTraces.ResidentIsSeen | project03/adp59-project3/opt.py:101-139 | until more pages have been accessed than there are frames, exactly the pages accessed are resident |
| OptTraces.SpentCounterWasHit | project03/adp59-project3/opt.py:40-44 | while counters are exact, a counter at -1 belongs to the page used just now, and used before that as well |
| OptTraces.SpentIff | project03/adp59-project3/opt.py:40-44 | while restarts are safe, the page accessed last has its counter at -1 if and only if that access was a hit and the counter did not restart at it |
| OptTraces.RestartsSafelyIff | project03/adp59-project3/opt.py:40-44 | a run takes the branch unsafely if and only if a spent page is followed by another and one of the two is used again |
| OptTraces.RoomyRunIsSafeIff | project03/adp59-project3/opt.py:40-44 | with as many frames as pages, an exact condition on the trace alone, by the parity of accesses in a row |
| OptBelady.HitsAreBeladys | project03/adp59-project3/opt.py:217-243 | as long as restarts are safe, the simulator is as full as Belady's memory and holds the same pages among those used again |
| OptBelady.RestartsSafelyIffOnTrace | project03/adp59-project3/opt.py:28-44 | with any number of frames, restarts are safe if and only if Belady's hits on the trace show no spent page followed by another with one of the two used again |
| OptExamples.ThreeInARowAreHarmless | project03/adp59-project3/opt.py:40-44 | 1 1 1 2 3 1 is not a quiet trace, and with three frames or more no restart on it is unsafe |
| OptTraces.QuietTraceRestartsSafely | project03/adp59-project3/opt.py:43-44 | a condition on the trace alone: if after every repeated use the next access is to the same page, or neither page is used again, no run takes the branch unsafely, however many frames it has |
| Opt.Simulator.PreprocessTrace | project03/adp59-project3/opt.py:258-287 | the two passes build, for each page of the trace, its list of uses |
| Opt.Simulator.UpdateCounters | project03/adp59-project3/opt.py:28-44 | the loop over the frame table brings every counter forward as the step function says |
| Opt.Simulator.FindVpnInPageTable | project03/adp59-project3/opt.py:79-89 | the scan returns the last match |
| Opt.Simulator.EvictVpnFromPageTable | project03/adp59-project3/opt.py:148-175 | the loop evicts the victim and updates frame, index and write counter |
| Opt.Simulator.AddVpnToPageTable | project03/adp59-project3/opt.py:101-145 | loads into a free frame, or evicts and retries exactly once |
| Opt.Simulator.ServeAccess | project03/adp59-project3/opt.py:217-243 | serves one access as the step function says |
| Opt.Simulator.RunAlgorithm | project03/adp59-project3/opt.py:178-214 | the whole run ends in the state that the step function reaches |
| SecondChance.Sweep | project03/adp59-project3/circularQueue.py:55-79 | plain second chance: the hand stops at a frame that is no longer referenced |
| SecondChance.SweepStopsAtFirst | project03/adp59-project3/circularQueue.py:55-79 | the hand stops at the first unreferenced frame in circular order, or where it started when all are referenced, and exactly the frames it passed lose their reference |
| ClockSpec.FirstMatch | project03/adp59-project3/circularQueue.py:29-43 | the first frame that is free or holds the page |
| ClockSpec.ServeKeepsInv | project03/adp59-project3/clock.py:19-56 | resident pages are distinct, fill the queue from the front, and free frames are clean and unreferenced, after every access |
| ClockSpec.ServeRefines | project03/adp59-project3/clock.py:19-56 | forgetting the dirty bits, one access of the clock is one access of plain second chance |
| ClockSpec.RunRefines | project03/adp59-project3/clock.py:59-94 | so are the pages, references and hand after any number of accesses of any trace |
| ClockSpec.FlushCleans | project03/adp59-project3/circularQueue.py:81-91 | the daemon counts one write for each frame it cleans |
| ClockSpec.WritesAreConserved | project03/adp59-project3/clock.py:31-52 | over every run, disk writes and dirty frames add up to the clean-to-dirty changes |
| Clock.CircularQueue.AddOrUpdateSuccessful | project03/adp59-project3/circularQueue.py:20-45 | touches the first frame that matches and reports whether there is one |
| Clock.CircularQueue.Remove | project03/adp59-project3/circularQueue.py:47-53 | frees and cleans the frame; its page number and reference stay behind |
| Clock.CircularQueue.FindVictim | project03/adp59-project3/circularQueue.py:55-79 | hand and references end where the sweep ends; no victim is named exactly when the frame there is dirty or all frames were referenced |
| Clock.CircularQueue.FlushDirtyAndUnreferencedPages | project03/adp59-project3/circularQueue.py:81-91 | cleans every dirty unreferenced frame and counts them |
| Clock.SecondTripSucceeds | project03/adp59-project3/clock.py:37-46 | after one flush the search succeeds at once, so the loop runs at most once |
| Clock.FreedIsFirstMatch | project03/adp59-project3/clock.py:48-52 | the new page lands in the frame just freed |
| Clock.Simulator.AddPageOrUpdate | project03/adp59-project3/clock.py:19-56 | serves one access as the step function says |
| Clock.Simulator.RunAlgorithm | project03/adp59-project3/clock.py:59-79 | the whole run ends in the state that the step function reaches |
| ClockRuns.MissShape | project03/adp59-project3/clock.py:26-52 | an access to a new page in a full table: where the hand stops, which references and dirty bits go, and how many pages are written, from the distance to the first unreferenced frame |
| ClockRuns.AllReferencedMeansAllWritten | project03/adp59-project3/circularQueue.py:55-91 | when all frames are referenced, all dirty pages are written and no other frame is dirty afterwards |
| ClockRuns.CleanVictimMeansNoWrite | project03/adp59-project3/circularQueue.py:55-61 | when the first unreferenced frame is clean, nothing is written |
| ClockRuns.HitShape | project03/adp59-project3/circularQueue.py:29-43 | a hit, or a free frame filled, changes only that frame: dirty by a write, referenced by a read, and no count |
| ClockRuns.FaultsAreEvictions | project03/adp59-project3/clock.py:26-56 | over every run, the fault count is that of the accesses for which plain second chance must evict |
| AgingHistory.BitIsTick | project03/adp59-project3/aging.py:32-42 | bit w-1-j of the value tells of the j-th most recent tick |
| AgingHistory.TickIsShift | project03/adp59-project3/aging.py:36-42 | shifting right and setting the top bit prepends one tick to the history |
| AgingHistory.ValueOrdersHistories | project03/adp59-project3/aging.py:65-67 | comparing values compares histories, most recent tick first |
| AgingSpec.AgingValueIsHistory | project03/adp59-project3/aging.py:32-54 | in every run, bit 7-j of a slot's value is the reference bit that the (j+1)-th most recent tick found |
| AgingRuns.ReferencedIff | project03/adp59-project3/aging.py:44-54 | in every run, a slot is referenced if and only if a read was served in it since the last tick |
| AgingRuns.AgingBitIff | project03/adp59-project3/aging.py:32-54 | in every run, bit 7-j of a slot's value is set if and only if a read was served in the slot between the (j+2)-th and the (j+1)-th most recent tick |
| AgingRuns.FaultsAreMisses | project03/adp59-project3/aging.py:127-175 | over every run, the fault count is the number of accesses that find no slot with their page number |
| AgingSpec.VictimIsLeastRecent | project03/adp59-project3/aging.py:61-67 | the victim is the first slot whose last eight ticks show the least recent reference |
| AgingSpec.ServeShape | project03/adp59-project3/aging.py:57-103 | an access changes one slot, and leaves aging values and histories alone |
| AgingSpec.MatchIsResidentIff | project03/adp59-project3/aging.py:69-80 | a slot that matches is in use unless the page is 0 and page 0 is not resident |
| AgingWrites.WritesAreAccounted | project03/adp59-project3/aging.py:57-125 | over every run, disk writes and dirty resident pages add up to the changes of resident pages from clean to dirty, and the clean pages read into a marked free slot |
| AgingWrites.PhantomAtIff | project03/adp59-project3/aging.py:67-99 | which accesses read a page into a marked slot can be told from the trace: the first access to a page other than 0, a read, with room left, after a write to page 0 since the last new page |
| AgingWrites.ResidentWritesAreConservedIff | project03/adp59-project3/aging.py:57-125 | disk writes and dirty resident pages add up to the changes of resident pages from clean to dirty alone, if and only if the trace has no such access |
| AgingWrites.ModifiesIff | project03/adp59-project3/aging.py:67-99 | a write to a page that is not in memory dirty either makes a resident page dirty or marks a free slot and is lost |
| AgingWrites.LosesAtIff | project03/adp59-project3/aging.py:67-76 | which writes are lost can be told from the trace: those to page 0 while fewer other pages have been accessed than there are slots |
| AgingWrites.WritesAreConservedIff | project03/adp59-project3/aging.py:57-125 | writes, dirty resident pages and lost modifications add up to the modifications and the clean pages taken for dirty; nothing is lost and nothing taken for dirty, so that every modified page is written once or still dirty and no other page is, if and only if the trace does not write page 0 while there is room |
| AgingWrites.WriteToPageZeroIsLost | project03/adp59-project3/aging.py:67-76 | with one slot and W 0, one page is modified, none is written and none is dirty |
| AgingWrites.CleanPageTakenForDirty | project03/adp59-project3/aging.py:67-99 | with one slot and W 0, R 7, page 7 is resident and dirty though nothing modified it |
| Aging.Simulator.CollectDataOnReferences | project03/adp59-project3/aging.py:45-54 | on a tick, ages every slot and then clears every reference |
| Aging.Simulator.AddOrUpdatePage | project03/adp59-project3/aging.py:57-103 | hit, free slot, or eviction and one retry, as the step function says |
| Aging.Simulator.RunAlgorithm | project03/adp59-project3/aging.py:127-175 | the whole run ends in the state that the step function reaches |
| StrideOrder.OrderSurvives | project02/trafficsim/adp59-project2/sys.c:1723-1739 | sorting the chains of one stride keeps the order at every other stride |
| StrideOrder.ExchangeKeepsChains | project02/trafficsim/adp59-project2/sys.c:1730-1735 | exchanging neighbours of a chain keeps, for every bound, how many ids of each chain are within it |
| StrideOrder.StrideForm | project02/trafficsim/adp59-project2/sys.c:1719-1721 | the strides are (3^k - 1)/2, and dividing by 3 steps down through them to 1 and then 0 |
| GroupInfo.Info.Set | project02/trafficsim/adp59-project2/sys.c:1731-1736 | assigning to one id changes that id and no other, across blocks |
| Groups.GroupsAlloc | project02/trafficsim/adp59-project2/sys.c:1622-1657 | blocks for every id, disjoint, or nothing, exactly when an allocation fails |
| Groups.AllocSucceedsIff | project02/trafficsim/adp59-project2/sys.c:1622-1657 | an allocation succeeds if and only if the header can be had and the ids fit inline or on the free pages |
| Groups.GroupsFromUser | project02/trafficsim/adp59-project2/sys.c:1694-1711 | the ids become the caller's list, or a fault is reported exactly when the list is too short to read |
| Groups.GroupsToUser | project02/trafficsim/adp59-project2/sys.c:1674-1691 | the caller's memory becomes the ids, nothing beyond them is written, and a fault is reported exactly when it is too short |
| Groups.InsertAt | project02/trafficsim/adp59-project2/sys.c:1726-1736 | inserting one id extends the ordered prefix at the stride and permutes its chain only |
| Groups.SortPass | project02/trafficsim/adp59-project2/sys.c:1724-1737 | one pass leaves the ids ordered at its stride, permutes each chain in itself, and keeps every other order |
| Groups.GroupsSort | project02/trafficsim/adp59-project2/sys.c:1714-1740 | for every number of ids: a sorted permutation, ordered at every stride used, keeping any order there was |
| GroupSearch.SignIsRightIff | project02/trafficsim/adp59-project2/sys.c:1754-1758 | the signed difference orders two ids exactly when they are less than 2^31 apart, or exactly 2^31 with the first the smaller |
| GroupSearch.SearchIsSound | project02/trafficsim/adp59-project2/sys.c:1750-1762 | the search claims no membership that is not there |
| GroupSearch.SearchIsExactIff | project02/trafficsim/adp59-project2/sys.c:1743-1763 | the search answers membership for every id if and only if the extremes are near enough to the middle id |
| GroupSearch.CloseIdsAreNear | project02/trafficsim/adp59-project2/sys.c:1754 | ids all less than 2^31 apart are near enough |
| GroupSearch.DistantIdIsMissed | project02/trafficsim/adp59-project2/sys.c:1754-1758 | with ids 0 and 2^31+1, id 0 is reported missing |
| GroupSearch.GroupsSearch | project02/trafficsim/adp59-project2/sys.c:1743-1763 | the loop computes what the search function says; no group list has no members |
| GroupSearch.Task.InGroup | project02/trafficsim/adp59-project2/sys.c:1851-1857 | true only for fsgid and members, and exactly for those when the ids are near enough |
| GroupSearch.Task.SetCurrentGroups | project02/trafficsim/adp59-project2/sys.c:1766-1786 | sorts and installs the groups unless the security module refuses |
| GroupSearch.Task.SetGroups | project02/trafficsim/adp59-project2/sys.c:1823-1846 | each error in the order the code finds it, nothing changed on error, the caller's list as a sorted permutation on success |
| GroupSearch.Task.GetGroups | project02/trafficsim/adp59-project2/sys.c:1790-1816 | the number of groups, and the groups when room is given, or the error |
| GroupSearch.Task.SetAskGet | project02/trafficsim/adp59-project2/sys.c:1790-1857 | after setting a list of ids less than 2^31 apart, membership is exactly fsgid or in the list, and the list comes back as a sorted permutation |
| Notifier.InsertKeepsOrder | project02/trafficsim/adp59-project2/sys.c:132-143 | linking in the newest block after the last of no lower priority keeps priorities non-increasing and equals in registration order |
| Notifier.Chain.Register | project02/trafficsim/adp59-project2/sys.c:132-143 | a new block is added at one place and keeps the chain linked and in order; one that is there already takes the blocks of its priority after it off the chain, or, being the last of them, becomes its own successor |
| Notifier.Chain.Unregister | project02/trafficsim/adp59-project2/sys.c:145-156 | removes exactly the block if it is there and reports whether it was |
| Notifier.ReachedIsCut | project02/trafficsim/adp59-project2/sys.c:180-191 | a call reaches the blocks up to the first that stops it, or the limit, or the end |
| Notifier.Chain.Call | project02/trafficsim/adp59-project2/sys.c:171-193 | calls exactly those blocks, counts them, and returns the answer of the last |
| WaitQueue.Queue.Enqueue | project02/trafficsim/adp59-project2/sys.c:2409-2423 | adds at the end, touching the old tail node only when the queue is not empty |
| WaitQueue.Queue.Dequeue | project02/trafficsim/adp59-project2/sys.c:2428-2437 | takes from the front and leaves the tail pointer alone |
| WaitQueue.Semaphore.constructor | project02/trafficsim/adp59-project2/sys.c:2453-2458 | as many waiters as units owed, exactly when the initial value is not negative |
| WaitQueue.Semaphore.Down | project02/trafficsim/adp59-project2/sys.c:2467-2481 | takes a unit or joins the end of the queue, and keeps as many waiters as units owed |
| WaitQueue.Semaphore.Up | project02/trafficsim/adp59-project2/sys.c:2500-2512 | returns a unit and wakes the first waiter exactly when one is owed it |
| SemaphoreProtocol.StepKeepsInv | project02/trafficsim/adp59-project2/sys.c:2460-2515 | no step of any process crashes or breaks the correspondence of value, queue, task states and stages |
| SemaphoreProtocol.RunIsSafe | project02/trafficsim/adp59-project2/sys.c:2460-2515 | so in every run from a value that is not negative |
| SemaphoreProtocol.SafeIffNotNegative | project02/trafficsim/adp59-project2/sys.c:2453-2455 | no event that can happen takes from an empty queue, after any run, if and only if the initial value is not negative or there is no process |
| SemaphoreProtocol.WaiterMovesUp | project02/trafficsim/adp59-project2/sys.c:2496-2512 | a waiter moves up one place for each up and stays blocked until its turn |
| SemaphoreProtocol.ReleasedInTurn | project02/trafficsim/adp59-project2/sys.c:2481-2512 | a waiter with k ahead of it is released by exactly the (k+1)-th up, even between its unlock and its schedule() |
| SemaphoreProtocol.DownQueuesIff | project02/trafficsim/adp59-project2/sys.c:2465-2481 | down puts its caller last in line if and only if it finds no unit |
| SemaphoreProtocol.ScheduleParksIff | project02/trafficsim/adp59-project2/sys.c:2483-2487 | at its schedule() a process is parked if and only if it is still in line |
| SemaphoreProtocol.UnitLetsInside | project02/trafficsim/adp59-project2/sys.c:2460-2487 | a process whose down finds a unit gets inside at its schedule(), whatever others do in between |
| SemaphoreProtocol.AtMostSoManyInside | project02/trafficsim/adp59-project2/sys.c:2460-2515 | when processes up only what they downed, at most as many are inside as there are resources; with one, at most one |
| SemaphoreMachine.Kernel.SysDown | project02/trafficsim/adp59-project2/sys.c:2465-2481 | down on the linked queue is the protocol's step |
| SemaphoreMachine.Kernel.CallSchedule | project02/trafficsim/adp59-project2/sys.c:2483-2487 | schedule() parks the process exactly if it is still marked |
| SemaphoreMachine.Kernel.SysUp | project02/trafficsim/adp59-project2/sys.c:2496-2515 | up on the linked queue is the protocol's step |
| BufferProofs.WriterHasRoom | project02/bounded_buffer.c:44-52 | a sender about to write finds room, in a slot that holds no unread character |
| BufferProofs.ReaderHasNext | project02/bounded_buffer.c:56-66 | a receiver about to read finds the oldest unread character in its slot |
| BufferProofs.StepKeepsInv | project02/bounded_buffer.c:31-89 | every instruction of every process keeps the invariant |
| BufferProofs.RunIsSafe | project02/bounded_buffer.c:31-66 | in every state of every run: received is a prefix of sent, all slots are accounted for, and at most one process is between wait and signal on mutex |
| BufferProofs.RunNeverOverwrites | project02/bounded_buffer.c:48-49 | a send overwrites only a slot whose character has been read |
| BufferProofs.RunLosesNoWakeup | project02/bounded_buffer.c:71-89 | no process sleeps on a semaphore whose value is positive |
| BufferProofs.JamIsOneSided | project02/bounded_buffer.c:44-66 | where nobody can run, all calls under way are senders at a full buffer, or all are receivers at an empty one |
| BufferProofs.NeverDeadlocked | project02/bounded_buffer.c:44-66 | while a send and a recv are under way, some process can run |
| BufferCalls.SenderCarriesArgument | project02/bounded_buffer.c:44-49 | in every run, a process in send carries the character that its last call was made with, and a process in recv has last called recv |
| BufferCalls.ReceivedAreArguments | project02/bounded_buffer.c:44-66 | in every run, what is written are the arguments of the sends in the order of writing, and what is received are the first of them, as many as there were reads |
| BufferCalls.ReceiverCarriesArgument | project02/bounded_buffer.c:56-66 | in every run, from its read to its return the recv that makes the r-th read carries the argument of the r-th send to write |
| BufferCalls.AsleepIff | project02/bounded_buffer.c:71-89 | a process falls asleep if and only if it waits on a semaphore with no unit, and wakes if and only if that semaphore is signalled |
| BufferMachine.Machine.WaitH | project02/bounded_buffer.c:71-80 | takes a unit and goes on, or sleeps at the same instruction |
| BufferMachine.Machine.SignalH | project02/bounded_buffer.c:83-89 | adds a unit and wakes every sleeper on the semaphore |
| BufferMachine.Machine.ExecuteOne | project02/bounded_buffer.c:44-66 | each line of send and recv is a step of the protocol |
| BufferMachine.Machine.Schedule | project02/bounded_buffer.c:44-89 | whatever the scheduler picks, the machine takes a step of the protocol and stays safe |
| ReadPages.PartIsAdmissible | project04/fuse-2.7.0/kernel/file.c:394-397 | part of an admissible request is admissible |
| ReadPages.MaximalIsFewest | project04/fuse-2.7.0/kernel/file.c:394-412 | a split in which no request could have taken the next page uses the fewest requests |
| ReadPages.CanGrow | project04/fuse-2.7.0/kernel/file.c:394-397 | the code's test refuses a page exactly when adding it would make the request inadmissible |
| ReadPages.Readahead.SendReadpages | project04/fuse-2.7.0/kernel/file.c:361-378 | the request sent asks for exactly the bytes of its pages |
| ReadPages.Readahead.Fill | project04/fuse-2.7.0/kernel/file.c:386-418 | a page joins the request being filled if it may, and otherwise starts a new one; on error nothing is lost of what came before |
| ReadPages.Readahead.Readpages | project04/fuse-2.7.0/kernel/file.c:420-440 | on success all pages go out in order and without loss, in admissible requests, and in no more of them than in any admissible split; a bad inode is refused before anything is sent, and requests run out only if any admissible split needs more than can be had |
| ReadPages.SplitKeepsLimits | project04/fuse-2.7.0/kernel/file.c:394-397 | no request has more than 32 pages, a gap, or more than one page and more bytes than the limit; and the first page of each could not have gone into the one before |
| ReadPages.NoneIsShorter | project04/fuse-2.7.0/kernel/file.c:394-412 | a maximal split of the first pages needs as many requests as any split of them and more |
| DirectIORounds.PagesWantedIsLeast | project04/fuse-2.7.0/kernel/file.c:538-541 | the pages to pin are the fewest that hold the bytes wanted, up to the limit of a request |
| DirectIORounds.RoundIsIdleIff | project04/fuse-2.7.0/kernel/file.c:579-580 | a round asks for nothing if and only if nothing is pinned at an aligned address |
| DirectIORounds.ReachesIff | project04/fuse-2.7.0/kernel/file.c:571-606 | a round takes place if and only if every round before it moved exactly what it was asked to and had a successor |
| DirectIORounds.EndIsUnique | project04/fuse-2.7.0/kernel/file.c:571-606 | the answers determine how a call ends and how much it has moved |
| DirectIORounds.HiddenIff | project04/fuse-2.7.0/kernel/file.c:575-593 | bytes are moved and the caller is told of an error if and only if, after progress and full rounds, some round cannot pin its pages or gets an overlong reply |
| DirectIORounds.ProgressCanBeHidden | project04/fuse-2.7.0/kernel/file.c:575-577 | two rounds, of which the first moves a page and the second cannot pin one: the caller is told only of the error |
| DirectIORounds.ReturnedBy | project04/fuse-2.7.0/kernel/file.c:575-607 | what the caller is told, from the round that ends the call: the error of a pin or of a first request, -EIO for an overlong reply, otherwise the bytes moved |
| DirectIOLimits.WithinLimitIff | project04/fuse-2.7.0/kernel/file.c:573-580 | a round asks for no more than the limit, however many of the pages it wants are pinned, if and only if what is left is no more, or the limit reaches a page boundary or exceeds what a request carries |
| DirectIOLimits.NothingPinnedIff | project04/fuse-2.7.0/kernel/file.c:579-580 | the same when nothing is pinned: the room wraps around at an unaligned address |
| DirectIOLimits.LaterRoundsAreAligned | project04/fuse-2.7.0/kernel/file.c:579-596 | every round but the first starts on a page boundary |
| DirectIOLimits.CallFitsIff | project04/fuse-2.7.0/kernel/file.c:571-585 | no answers whatever make a call send a request over the limit if and only if it wants no more than the limit, or starts on a page boundary where the limit fits, or the limit is at least 2^32 less the offset in the page |
| DirectIOLimits.PinnedFitsIff | project04/fuse-2.7.0/kernel/file.c:571-585 | no answers make a call send a request over the limit in a round that pins pages, if and only if a weaker condition on its address, length and limit holds |
| DirectIOLimits.WholePagesFitIff | project04/fuse-2.7.0/kernel/file.c:571-585 | both conditions for a limit of whole pages; and only the first request can be too large |
| DirectIOLimits.LimitIsLostWithoutPages | project04/fuse-2.7.0/kernel/file.c:579-580 | an unaligned buffer, a limit of 32 pages and nothing pinned: all 200000 bytes are asked for at once |
| DirectIOProgress.BusyRoundsMove | project04/fuse-2.7.0/kernel/file.c:571-606 | of the rounds of a call that still runs, all but as many as it has moved bytes pin nothing on a page boundary |
| DirectIOProgress.RunsForEverIff | project04/fuse-2.7.0/kernel/file.c:571-606 | a call can be kept running for ever if and only if it can come to a page boundary with something left to move |
| DirectIOLimits.LimitCanBeExceeded | project04/fuse-2.7.0/kernel/file.c:573-580 | an unaligned buffer and a limit of one page give a request of nearly two |
| DirectIOLimits.AlignedFits | project04/fuse-2.7.0/kernel/file.c:554-580 | from a page boundary, a write keeps to a write limit of whole pages and a read to such a read limit |
| DirectIOLimits.OtherLimitIsIdle | project04/fuse-2.7.0/kernel/file.c:554-580 | a write goes the same way under every read limit, and a read under every write limit |
| DirectIOLimits.ReadsAndWritesDiffer | project04/fuse-2.7.0/kernel/file.c:554-580 | with limits of 32 pages for reads and one for writes, 8192 bytes are read at once and 4096 written |
| DirectIOLimits.RequestsCarry32Pages | project04/fuse-2.7.0/kernel/file.c:538-541 | with a higher limit, a request carries 32 pages and no more |
| DirectIO.File.DirectIO | project04/fuse-2.7.0/kernel/file.c:554-620 | bytes moved tile one interval from the old position; a positive result is exactly their number and advances position and size by it; every request has the position and size its round calls for, and is within the limit when the call fits, and when its pages are pinned under the weaker condition; from a page boundary writes keep to the write limit and reads to the read limit; the end and the hidden progress are those the answers determine; all but as many rounds as bytes moved are idle while the loop runs, so that it ends when every round pins a page |
| LockOwner.RoundInverse | project04/fuse-2.7.0/kernel/file.c:187-191 | a round of XTEA and its inverse undo each other, for every key |
| LockOwner.OwnerIdIsBijective | project04/fuse-2.7.0/kernel/file.c:178-194 | for every key the scrambling is a bijection on 64-bit ids with an explicit inverse |
| LockOwner.DistinctOwnersDistinctIds | project04/fuse-2.7.0/kernel/file.c:178-194 | distinct owners get distinct ids |
| LockOwner.LockOwnerId | project04/fuse-2.7.0/kernel/file.c:178-194 | the loop computes the scrambling, and the inverse recovers the owner |
| LockOwnerXtea.RoundIsXtea | project04/fuse-2.7.0/kernel/file.c:187-191 | in each of the rounds, the sum is that multiple of 0x9E3779B9, and each half changes by the other half shifted left by 4 exclusive-or right by 5, bit by bit, added to itself, exclusive-or sum and key word, the word taken from a closed schedule |
| LockOwnerXtea.OwnerIdIsRounds | project04/fuse-2.7.0/kernel/file.c:178-194 | an id is its two halves after 32 rounds from a sum of zero |
| LockOwnerVector.KnownAnswer | project04/fuse-2.7.0/kernel/file.c:178-194 | a published test vector of XTEA with a key that is not zero |

## Left out

- OptProps.OptIsOptimal: one way only. When the counters go wrong is exact, on the trace; a run in which they do may still happen to fault as seldom as possible, and no condition short of comparing its faults with Belady's was found for that.
- Opt.Simulator: page table and simulator are one object, and a frame is a value in an array slot rather than an object of its own; frames are never shared in the source.
- An empty frame table: the simulators fail at the first fault with an empty frame table, and runs here have at least one frame.
- Trace parsing, virtual page numbers from addresses, printing and the hit and evict flags that only printing reads.
- Time in Aging: whether the refresh interval has passed is given, access by access.
- lru.py, the semaphore's users, the FUSE file system of the course and the remaining system calls.
- Groups.GroupsAlloc: reference counts, locks and the freeing of groups are not modelled; the sizes of a page of ids and of the inline block are parameters because the headers that define them are not in the repository; an inline block is taken to be no larger than a page of ids.
- Groups.GroupsToUser: a copy that faults part of the way through a block is taken to write nothing of that block.
- WaitQueue.Queue.Enqueue: allocation does not fail and freed nodes are not reused; counters do not wrap around.
- SemaphoreProtocol: signals, which could wake a process that is still queued, and the scheduler's choice among runnable processes.
- Notifier.Chain.Register: what follows once a block has become its own successor is not modelled, because the chain is then no list.
- Notifier.Chain.Call: notifiers answer without changing the chain; RCU readers in the middle of a change are not modelled.
- BufferProtocol: fairness, so that a process that can run may be passed over for ever.
- ReadPages.Readahead.Fill: read_cache_pages is not part of this model; it is taken to hand over the pages one by one and to stop at the first error. After a refused page the code leaves a pointer behind that nothing follows; the model leaves none.
- DirectIO.File.DirectIO: where no further request can be had the code goes on to release an error pointer; the model ends the call there. The bytes of a request's pages are taken to fit in 32-bit arithmetic. Page contents and user memory are not modelled.
- LockOwner.LockOwnerId: that ids hide owners is not a property of the code alone and is not stated.

# Verification models of the amdgpu kernel driver

Dafny 4.11 models of the bookkeeping protocols of the amdgpu driver, with proofs of what they promise. The kernel, TTM,
the GPU and other tasks are nondeterministic steps with small contracts. `dafny verify dfyconfig.toml` checks everything.

| module | what it models |
|---|---|
| `FenceRing` | the hardware fence ring as a step relation: one emitter, the GPU, any number of concurrent processors, 32-bit numbers |
| `FenceLimits` | ring initialisation, the fence queries, and what happens after 2^32 fences |
| `FenceUndo` | what undone frames and forced completions leave behind |
| `FenceDriver` | emit and process as code over the slot array, for calls that do not overlap |
| `UserptrIndex` | the interval index of user memory: merge on insert, removal, MMU-notifier callbacks |
| `CsPlacement` | validation and eviction of the buffers of a command submission, over a list reordered while it is walked |
| `MoveThrottle` | the debt-based throttle on buffer migration |
| `CsSubmission` | one submission: allowance, placement, report |
| `UserPages` | the user-page retry loop of a submission and the life of its page arrays |
| `CtxFences` | the fence window of a context ring, and the normalisation of its size |
| `IrqRefcount` | interrupt enable counts, with any number of concurrent callers and resets |
| `PageFlip` | the page-flip continuation over fence callbacks |
| `BoList` | filling a buffer list from both ends, and its stable bucket sort |
| `IpBlocks` | bring-up and teardown of the hardware blocks, with failure at any callback |
| `IbSchedule` | context tracking on a hardware ring |
| `GttManager`, `Apertures`, `GartTable` | GTT accounting, placement of VRAM and GTT, GART page-table writes |
| `HdmiAcr`, `DpmScale` | HDMI N/CTS arithmetic, the u/p scaling loop |
| `Bits`, `Lists`, `Wrappers` | powers of two, masks and residues; positions in lists; `Option` |

Protocols with concurrency are step relations: `Enabled` and `Apply` give the steps, `Inv` is inductive, and the theorems
are about every state of every `Run`. Code that updates state in place is a class or a method with loops, tied by its
`ensures` to a function or predicate on values about which the theorems are proved.

## Where the code promises less than one might expect

Each of these has a concrete failing input or run and the exact condition under which the code is right; only for what a
search passes is the condition shown one way.

- A delayed exchange in `amdgpu_fence_process` succeeds after exactly 2^32 further claims and the thread then fetches for
  signalling a fence the GPU has not reached (`FenceLimits.StaleExchangeSignalsEarly`). With fewer claims in between no
  exchange goes wrong (`FenceRing.FreshUnlessFullWrap`), and `FenceLimits.ExchangeSafeIffFresh` says which ones do.
- `amdgpu_fence_wait_empty` returns at once when 2^32 divides the number of fences emitted
  (`FenceLimits.WaitEmptyMissesAtWrap`, `FenceLimits.WaitEmptyDecides`), and may return before a fence is signalled that a
  processor has taken from its slot (`FenceLimits.WaitEmptyReturnsBeforeSignal`, `FenceLimits.WaitEmptyWaits`).
- A frame that is undone after the VM flush stored its own fence leaves that fence in its slot, above the last committed
  number. With as many such frames in a row as there are slots the next emission waits for ever, unless completion is forced
  (`FenceUndo.UndoneFramesStick`, `FenceRing.WaitingEmitterWakesIff`, `FenceRing.StuckForEver`), and after one of them
  `amdgpu_fence_wait_empty` waits as long as there is neither that nor a later commit (`FenceUndo.WaitEmptySticks`,
  `FenceUndo.WaitEmptyEndsIff`).
- Completion forced during an emission can claim a number before its fence is stored (`FenceUndo.ForcedTooEarly`,
  `FenceRing.ForceSafeIff`).
- After a GPU reset the ring still notes the context that was loaded before (`IbSchedule.ResetLeavesStaleNote`,
  `IbSchedule.CurrentIsLoadedIff`).
- `amdgpu_fence_driver_init_ring` accepts 0 and 2^31, for which the slot array is too small (`FenceLimits.InitRingTooSmall`,
  `FenceLimits.InitRingAccepts`).
- The search for something to evict ignores pin counts (`CsPlacement.PinnedPicked`, `CsPlacement.PinnedSparedIff`).
- The search is not started again for the next buffer, so an entry that could make room may not be tried
  (`CsPlacement.PassedNotTriedAgain`); `CsPlacement.Parser.ListValidate` says what running out of memory then means.
- User memory of another process is refused only when the walk reaches it, and evicted entries are not reached
  (`CsPlacement.ForeignNotReached`): an entry is refused unless it could make room for another that is not pinned
  (`CsPlacement.Parser.ListValidate`), and while that one is validated the walk can lose it exactly then
  (`CsPlacement.TakenOutIff`).
- Bytes moved by a submission that fails are never debited (`MoveThrottle.FailedMoveIsFree`,
  `MoveThrottle.UnreportedZeroIff`).
- One `amdgpu_irq_put` too many can leave an interrupt enabled with no user (`IrqRefcount.UnbalancedPutMisprograms`): the
  hardware is right exactly if the last count read was not negative (`IrqRefcount.QuiescentProgrammedIff`).
- The error path of `amdgpu_bo_list_set` drops every reference exactly if no user memory came before the failing handle
  (`BoList.CleanUpLeaks`, `BoList.CleanUpCompleteIff`).
- A memory controller whose hardware or write-back initialisation fails after its scratch memory was set up is not undone
  (`IpBlocks.StuckControllerNotUndone`, `IpBlocks.Device.Lifecycle`).
- `amdgpu_gtt_mgr_new` does not give pages back when it fails after the debit (`GttManager.PagesLost`,
  `GttManager.AllReturnedIff`).
- A GTT placed above VRAM runs past the address space if VRAM does, or if VRAM ends off the alignment and the padding does
  not fit (`Apertures.GttRunsOver`, `Apertures.VramRunsOver`, `Apertures.GttFitsIff`).
- `amdgpu_sched_jobs` is normalised to a power of two exactly for requests up to 2^30
  (`CtxFences.LargeRequestTurnsNegative`, `CtxFences.NormaliseJobsIff`), and memory for the windows of all rings is asked
  for exactly for requests up to 2^26 (`CtxFences.WindowsAskedIff`).

## Model

| member | source | states |
|---|---|---|
| `FenceRing.InitInv` | amd/amdgpu/amdgpu_fence.c:366-378 | a freshly initialised ring of any power-of-two size satisfies the invariant |
| `FenceRing.WindowBound` | amd/amdgpu/amdgpu_fence.c:154-164 | the fences stored and not claimed never exceed the ring |
| `FenceRing.EmitBumpKeepsInv` | amd/amdgpu/amdgpu_fence.c:145 | taking the next number, for the first or a second fence of a frame, keeps the invariant, across 32-bit wrap |
| `FenceRing.WaitsForPrevious` | amd/amdgpu/amdgpu_fence.c:158-162 | the fence found in the slot of the next one is exactly one ring older |
| `FenceRing.EmitLookKeepsInv` | amd/amdgpu/amdgpu_fence.c:158-162 | looking at the slot keeps the invariant |
| `FenceRing.EmitWakeKeepsInv` | amd/amdgpu/amdgpu_fence.c:161 | waking from the wait keeps the invariant |
| `FenceRing.EmitStoreFillsEmptySlot` | amd/amdgpu/amdgpu_fence.c:164 | storing writes an empty slot, so every stored fence stays in its slot |
| `FenceRing.EmitStoreKeepsInv` | amd/amdgpu/amdgpu_fence.c:164 | storing keeps the invariant |
| `FenceRing.CommitKeepsInv` | amd/amdgpu/amdgpu_ib.c:215-236 | committing the frame, with all its fences, after they are stored keeps the invariant |
| `FenceRing.UndoKeepsInv` | amd/amdgpu/amdgpu_ib.c:215-222 | undoing a frame after a fence of it was stored keeps the invariant; the fence keeps its number and slot |
| `FenceRing.WordKeepsInv` | amd/amdgpu/amdgpu_fence.c:528-539 | a GPU write of the next committed number, or a forced completion with no emission half done, keeps the invariant |
| `FenceRing.ForceSafeIff` | amd/amdgpu/amdgpu_fence.c:528-539 | a forced completion keeps the invariant if and only if no emission is under way, or only the one fence of its frame is stored and not committed |
| `FenceRing.ReadsKeepInv` | amd/amdgpu/amdgpu_fence.c:199-203 | reading `last_seq` and then the word, or losing the exchange, keeps the invariant |
| `FenceRing.FreshUnlessFullWrap` | amd/amdgpu/amdgpu_fence.c:203 | an exchange by a thread that fewer than 2^32 claims have passed since it read `last_seq` finds `last_seq` where it read it, and does not set it back |
| `FenceRing.CasTakesRange` | amd/amdgpu/amdgpu_fence.c:203-212 | a fresh exchange takes over exactly the fences from `last_seq` to the word read, at most one ring of them, and nothing if there are none |
| `FenceRing.CasKeepsInv` | amd/amdgpu/amdgpu_fence.c:203-212 | a fresh successful exchange keeps the invariant |
| `FenceRing.FetchKeepsInv` | amd/amdgpu/amdgpu_fence.c:217-222 | stepping to the next masked slot and reading it keeps the invariant: it holds the next fence of the range |
| `FenceRing.ClearKeepsInv` | amd/amdgpu/amdgpu_fence.c:223 | emptying the slot before signalling keeps the invariant |
| `FenceRing.SignalShrinks` | amd/amdgpu/amdgpu_fence.c:225-235 | signalling signals exactly the next fence of the range, and the thread leaves after the last |
| `FenceRing.SignalKeepsInv` | amd/amdgpu/amdgpu_fence.c:228-235 | signalling keeps the invariant |
| `FenceRing.StepKeepsInv` | amd/amdgpu/amdgpu_fence.c:134-236 | every step of every participant keeps the invariant |
| `FenceRing.TimelyStepKeepsInv` | amd/amdgpu/amdgpu_fence.c:134-236 | every step keeps the invariant, given only that bound on the delay of a thread whose exchange succeeds, and that a forced completion finds no emission half done |
| `FenceRing.RunKeepsInv` | amd/amdgpu/amdgpu_fence.c:134-236 | the invariant holds in every state of every interleaving, with second fences in a frame and undone frames, in which fewer than 2^32 fences are claimed between a thread's read of `last_seq` and its successful exchange and no completion is forced during an emission |
| `FenceRing.SignalledOnceAndNotEarly` | amd/amdgpu/amdgpu_fence.c:228-232 | in every run `fence_signal` is called on an unsignalled fence whose number the GPU has written: `BUG()` is unreachable |
| `FenceRing.NoFenceOverwritten` | amd/amdgpu/amdgpu_fence.c:145-164 | in every run the slot being stored to is empty |
| `FenceRing.SlotAccessInRange` | amd/amdgpu/amdgpu_fence.c:154-223 | in every run every slot index used is inside the array |
| `FenceRing.CommittedGetsSignalled` | amd/amdgpu/amdgpu_fence.c:193-236 | from every state that satisfies the invariant, steps of the GPU and of processors alone lead to any fence up to the last committed number being signalled |
| `FenceRing.SignalReachableIff` | amd/amdgpu/amdgpu_fence.c:193-236 | a fence can be signalled by steps of the GPU and of processors alone exactly if it is not above the last committed number |
| `FenceRing.WaitingEmitterWakesIff` | amd/amdgpu/amdgpu_fence.c:158-162 | in every run a waiting emitter can go on, by steps of the GPU and of processors, exactly if the fence it waits for is not above the last committed number |
| `FenceRing.StuckForEver` | amd/amdgpu/amdgpu_fence.c:158-162 | otherwise it waits in every continuation in which no completion is forced during the emission |
| `FenceRing.EveryFenceAccountedFor` | amd/amdgpu/amdgpu_fence.c:199-235 | every claimed fence is signalled or owed by exactly one processor |
| `FenceRing.QuiescentMeansSignalled` | amd/amdgpu/amdgpu_fence.c:193-236 | with no processor active exactly the claimed fences have been signalled, each once |
| `FenceRing.StepMonotone` | amd/amdgpu/amdgpu_fence.c:199-203 | in a run no step moves `last_seq` backwards or takes back a claim |
| `FenceRing.LastSeqMonotone` | amd/amdgpu/amdgpu_fence.c:199-203 | over any run `last_seq` never moves backwards and never passes the word |
| `FenceRing.ClaimsTile` | amd/amdgpu/amdgpu_fence.c:203-235 | claimed ranges are disjoint, contiguous and at most one ring long |
| `FenceRing.WalkStopsAtEnd` | amd/amdgpu/amdgpu_fence.c:214-235 | the masked do-while visits exactly the slots of its range, also when the range is the whole ring |
| `FenceLimits.InitRingAccepts` | amd/amdgpu/amdgpu_fence.c:365-380 | -EINVAL exactly for positive non-powers of two; every number is a valid slot index exactly if the size is neither 0 nor 2^31, and then there are twice as many slots as requested, with the mask one less |
| `FenceLimits.InitRingTooSmall` | amd/amdgpu/amdgpu_fence.c:365-380 | for 0 and for 2^31 the slot array is empty |
| `FenceLimits.CountEmittedIsExact` | amd/amdgpu/amdgpu_fence.c:293-305 | the 32-bit difference is the number of fences emitted and not claimed, at most one more than the ring |
| `FenceLimits.WaitEmptyDecides` | amd/amdgpu/amdgpu_fence.c:261-283 | the wait is for the last fence; returning at once means that the GPU has passed all fences exactly unless 2^32 divides the count and the last fence is unclaimed; all fences have been signalled exactly if all are claimed and nobody owes one |
| `FenceLimits.WaitEmptyWaits` | amd/amdgpu/amdgpu_fence.c:261-283 | when the wait ends, the GPU has passed all fences emitted before the call, and they have all been signalled exactly if no processor still owes one of them |
| `FenceLimits.WaitEmptyReturnsBeforeSignal` | amd/amdgpu/amdgpu_fence.c:271-276 | on every ring a reachable state in which the wait returns at once with a fence taken from its slot and not signalled |
| `FenceLimits.WaitEmptyMissesAtWrap` | amd/amdgpu/amdgpu_fence.c:267-268 | on every ring a reachable state in which the wait returns at once with a fence outstanding |
| `FenceLimits.ExchangeSafeIffFresh` | amd/amdgpu/amdgpu_fence.c:199-203 | a successful exchange keeps the invariant if and only if it does not set `last_seq` back, which takes 2^32 claims since the thread read it |
| `FenceLimits.StaleExchangeSignalsEarly` | amd/amdgpu/amdgpu_fence.c:199-235 | on every ring a reachable state in which an exchange succeeds exactly 2^32 claims late and an unexecuted fence is fetched for signalling |
| `FenceUndo.UndoneFramesStick` | amd/amdgpu/amdgpu_ib.c:215-222 | on every ring, as many calls as there are slots whose flush stores a fence and whose own fence fails: the next emission waits for the first of those fences, for ever unless a completion is forced |
| `FenceUndo.WaitEmptyEndsIff` | amd/amdgpu/amdgpu_fence.c:261-283 | the wait can end by steps of the GPU and of processors alone exactly if the last fence is not above the last committed number |
| `FenceUndo.WaitEmptySticks` | amd/amdgpu/amdgpu_fence.c:261-283 | on every ring, after one undone frame the wait cannot end without a further commit or a forced completion |
| `FenceUndo.ForcedTooEarly` | amd/amdgpu/amdgpu_fence.c:446-449 | on every ring, completion forced between taking a number and storing its fence: the number is claimed from an empty slot, and the fence stored after that is owed by nobody |
| `FenceDriver.Ring.constructor` | amd/amdgpu/amdgpu_fence.c:366-378 | the ring starts empty |
| `FenceDriver.Ring.Process` | amd/amdgpu/amdgpu_fence.c:193-236 | signals exactly the fences passed by the GPU and not yet signalled, once each and in order |
| `FenceDriver.Ring.Walk` | amd/amdgpu/amdgpu_fence.c:211-235 | the masked do-while empties exactly the slots of its range |
| `FenceDriver.Ring.SignalSlot` | amd/amdgpu/amdgpu_fence.c:217-234 | one turn empties the slot of the oldest fence and signals it |
| `FenceDriver.Ring.BusyIfFull` | amd/amdgpu/amdgpu_fence.c:154-159 | the slot of the next fence holds an unsignalled one exactly if the ring is full |
| `FenceDriver.Ring.Emit` | amd/amdgpu/amdgpu_fence.c:134-169 | the new fence gets the next number and its slot; the call waits exactly if the ring is full, and then loses no fence |
| `FenceDriver.Ring.Store` | amd/amdgpu/amdgpu_fence.c:164-168 | the fence is stored in an empty slot |
| `UserptrIndex.MeetsIff` | amd/amdgpu/amdgpu_mn.c:313 | a lookup for a range finds a node exactly if the two share an address |
| `UserptrIndex.ExactlyOneNode` | amd/amdgpu/amdgpu_mn.c:296-343 | a registered buffer lies inside exactly one node |
| `UserptrIndex.SingleLookupComplete` | amd/amdgpu/amdgpu_mn.c:158-176 | any node that meets a page has every registered buffer mapping it; no node means no buffer |
| `UserptrIndex.WideningStaysPut` | amd/amdgpu/amdgpu_mn.c:313-320 | widening the range never pulls in a node that missed the original range |
| `UserptrIndex.HullIsUnion` | amd/amdgpu/amdgpu_mn.c:317-318 | the merged interval is exactly the union of the range and the nodes it met |
| `UserptrIndex.MergeKeepsWellFormed` | amd/amdgpu/amdgpu_mn.c:313-338 | registration keeps the nodes disjoint and adds exactly the new buffer |
| `UserptrIndex.RemoveKeepsWellFormed` | amd/amdgpu/amdgpu_mn.c:368-379 | unregistration keeps the nodes disjoint and drops exactly that buffer |
| `UserptrIndex.StepWellFormed` | amd/amdgpu/amdgpu_mn.c:296-383 | every operation keeps the index well formed, with its exact effect on the registered buffers |
| `UserptrIndex.RunWellFormed` | amd/amdgpu/amdgpu_mn.c:296-383 | in every state of every run the nodes are disjoint and exactly the live buffers are covered |
| `UserptrIndex.Notifier.constructor` | amd/amdgpu/amdgpu_mn.c:261-265 | the index starts empty |
| `UserptrIndex.Notifier.Register` | amd/amdgpu/amdgpu_mn.c:296-343 | -ENOMEM exactly if no node is met and allocation fails, and then nothing changes; otherwise the met nodes are merged and no buffer is lost; either way a step of the runs above |
| `UserptrIndex.Notifier.Gather` | amd/amdgpu/amdgpu_mn.c:313-320 | the loop ends having removed exactly the nodes that meet the original range, with their union and their buffers |
| `UserptrIndex.GatherNext` | amd/amdgpu/amdgpu_mn.c:313-320 | one turn of the widening loop keeps its invariant |
| `UserptrIndex.GatherDone` | amd/amdgpu/amdgpu_mn.c:313-320 | when the widening loop ends, the removed nodes are exactly those that meet the original range |
| `UserptrIndex.Notifier.Unregister` | amd/amdgpu/amdgpu_mn.c:352-383 | removes exactly the buffer, and its node if the saved successor is then alone in its list; nothing changes for an unregistered buffer; either way a step of the runs above |
| `UserptrIndex.SavedSuccessor` | amd/amdgpu/amdgpu_mn.c:368-379 | in the circular list, the saved successor is alone after the deletion exactly if no buffer is left, and then it is the list head |
| `UserptrIndex.AffectedIff` | amd/amdgpu/amdgpu_ttm.c:1010-1037 | a buffer is affected exactly if it maps an address of the range, is not at address 0 and is not being pinned by the caller |
| `UserptrIndex.Notifier.InvalidateNode` | amd/amdgpu/amdgpu_mn.c:116-146 | exactly the buffers of the node that map an address of the range, are not at address 0 and are not being pinned by the caller, once each |
| `UserptrIndex.Notifier.InvalidatePage` | amd/amdgpu/amdgpu_mn.c:158-176 | a single lookup reaches exactly the registered buffers that map the page, are not at address 0 and are not being pinned by the caller, once each |
| `UserptrIndex.Notifier.InvalidateRange` | amd/amdgpu/amdgpu_mn.c:189-213 | exactly the registered buffers that map an address of the range, are not at address 0 and are not being pinned by the caller, once each |
| `CsPlacement.MoveIsPermutation` | amd/amdgpu/amdgpu_cs.c:434 | moving an entry to the front permutes the list |
| `CsPlacement.MoveBehind` | amd/amdgpu/amdgpu_cs.c:434 | moving an entry to the front changes what is behind another entry by at most itself |
| `CsPlacement.EvictedIff` | amd/amdgpu/amdgpu_cs.c:409-421 | an entry can be evicted exactly if it is in a domain the validated buffer may use and is allowed in another |
| `CsPlacement.EvictionShrinks` | amd/amdgpu/amdgpu_cs.c:414-436 | every successful eviction strictly lowers the number of list buffers in the wanted domains |
| `CsPlacement.ProgressNext` | amd/amdgpu/amdgpu_cs.c:465-494 | an entry that evictions took out of the rest of the walk has been well placed, and the walk gets shorter |
| `CsPlacement.Scan` | amd/amdgpu/amdgpu_cs.c:399-421 | the backward search stops at the buffer itself, at the first movable entry, or at the list head |
| `CsPlacement.PinnedSparedIff` | amd/amdgpu/amdgpu_cs.c:399-421 | pinned entries are spared exactly if no pinned entry is movable |
| `CsPlacement.PinnedPicked` | amd/amdgpu/amdgpu_cs.c:399-424 | a list on which a pinned entry is picked |
| `CsPlacement.PassedNotTriedAgain` | amd/amdgpu/amdgpu_cs.c:396-421 | a list on which the search passes an entry for one buffer and then does not find it for the next, although it could make room |
| `CsPlacement.ForeignNotReached` | amd/amdgpu/amdgpu_cs.c:433-436 | a list on which user memory of another process is evicted to the front and the walk does not reach it |
| `CsPlacement.SearchStops` | amd/amdgpu/amdgpu_cs.c:399-421 | a search without an eviction passes only entries that cannot make room |
| `CsPlacement.SearchEvicts` | amd/amdgpu/amdgpu_cs.c:399-436 | a search with an eviction passes only entries that cannot make room any more |
| `CsPlacement.Parser.constructor` | amd/amdgpu/amdgpu_cs.c:607-611 | the state before validation; the search starts at the last entry |
| `CsPlacement.Parser.TtmValidate` | amd/amdgpu/amdgpu_cs.c:374-379 | success places the buffer in a requested domain and moves no other; failure moves nothing |
| `CsPlacement.Parser.BoValidate` | amd/amdgpu/amdgpu_cs.c:355-387 | a pinned buffer is left alone; otherwise one call, for the preferred domains exactly while the allowance lasts, or a second one if those are short of memory; success means an allowed domain |
| `CsPlacement.Parser.TryEvict` | amd/amdgpu/amdgpu_cs.c:390-440 | evicts exactly if the search stops at a movable entry and TTM moves it; otherwise list and placement stay; the search goes on from there next time |
| `CsPlacement.Parser.Search` | amd/amdgpu/amdgpu_cs.c:399-421 | the cursor stops exactly where the search does |
| `CsPlacement.Parser.Evict` | amd/amdgpu/amdgpu_cs.c:449 | an eviction lowers the count of buffers in the wanted domains; without one there is no cursor, the search is at its end, or TTM refused |
| `CsPlacement.Parser.TryPlace` | amd/amdgpu/amdgpu_cs.c:448 | one try keeps what is known about the loop, and what it returns is that of its last call |
| `CsPlacement.Parser.Place` | amd/amdgpu/amdgpu_cs.c:447-449 | the do-while terminates. Tries and evictions alternate, each try for the preferred domains exactly while the allowance lasts. Only buffers of the list that can make room move. The search passes only entries that cannot; the loop gives up only without a cursor, at the end of the search, or after a failed eviction |
| `CsPlacement.Parser.Validate` | amd/amdgpu/amdgpu_cs.c:442-457 | the same, and for an unpinned buffer with a shadow a second validation after a successful first, without evictions |
| `CsPlacement.Parser.Visit` | amd/amdgpu/amdgpu_cs.c:465-494 | one entry of the list walk: -EPERM and no change for foreign memory; otherwise the cursor is dropped exactly if it is there, a buffer with a shadow is placed twice, and the progress made is kept |
| `CsPlacement.WalkNext` | amd/amdgpu/amdgpu_cs.c:465-494 | an entry not yet visited is where it was at first; if the search has passed it, it could not make room for one of those visited |
| `CsPlacement.WalkEnds` | amd/amdgpu/amdgpu_cs.c:447-453 | when the loop gives up at a buffer, each entry that the walk has not reached could not make room for it or for one before it |
| `CsPlacement.TakenOutIff` | amd/amdgpu/amdgpu_cs.c:399-436 | while a buffer is validated, an entry behind it which the search has not passed can be taken out of the rest of the walk exactly if it can make room |
| `CsPlacement.Parser.ListValidate` | amd/amdgpu/amdgpu_cs.c:459-496 | on success every unpinned buffer is in an allowed domain, also the entries skipped after eviction to the front, and no entry is foreign unless it could make room for another that is not pinned; the list is permuted. An error is -EPERM for foreign memory or that of a failed call; out of memory means a failed eviction, a second validation for a shadow, or that no entry not yet reached could make room for this buffer or one before it. Every call serves a buffer of the list, for its preferred domains only while the allowance lasts |
| `CsSubmission.Submit` | amd/amdgpu/amdgpu_cs.c:607-632 | allowance, placement and report of a submission, with the errors of the walk from the last entry on: the balance is that of the ledger, and a submission in debt with tight VRAM validates every buffer against its allowed domains |
| `MoveThrottle.ConversionRoundTrip` | amd/amdgpu/amdgpu_cs.c:245-262 | microseconds to bytes and back is exact; bytes to microseconds loses less than one microsecond |
| `MoveThrottle.CheckMeans` | amd/amdgpu/amdgpu_cs.c:299-332 | in numbers: the clock pays in up to 200 ms; with 128 MB or an eighth of VRAM free the balance is lifted to the cost of a quarter of the free VRAM, or on an APU to 0 |
| `MoveThrottle.LedgerBalances` | amd/amdgpu/amdgpu_cs.c:299-353 | over any run the final balance is the initial one plus time elapsed and credit granted for roomy VRAM, less credit forfeited to the upper bound and less debits |
| `MoveThrottle.TightNeverGrants` | amd/amdgpu/amdgpu_cs.c:305-332 | with tight VRAM nothing is granted |
| `MoveThrottle.ThrottleLedger` | amd/amdgpu/amdgpu_cs.c:299-353 | with tight VRAM a run reports no more than elapsed time plus initial minus final balance |
| `MoveThrottle.MovedBytesBounded` | amd/amdgpu/amdgpu_cs.c:613-632 | all bytes moved in a run are at most what that pays for, up to one microsecond of rounding a report, plus the bytes moved by failed submissions |
| `MoveThrottle.UnreportedZeroIff` | amd/amdgpu/amdgpu_cs.c:613-632 | the unreported remainder is 0 exactly if every failed submission moved nothing |
| `MoveThrottle.FailedMoveIsFree` | amd/amdgpu/amdgpu_cs.c:613-632 | a failed submission moves any number of bytes without a debit |
| `MoveThrottle.DebtOutlastsClock` | amd/amdgpu/amdgpu_cs.c:299-353 | no run with tight VRAM brings the balance above what the clock repaid |
| `MoveThrottle.DebtMeansZero` | amd/amdgpu/amdgpu_cs.c:334-337 | until the clock has repaid the debt every threshold is 0 |
| `MoveThrottle.DebtRepaidExactly` | amd/amdgpu/amdgpu_cs.c:299-340 | without further reports the threshold is positive exactly once the clock has repaid the debt |
| `MoveThrottle.Throttle.constructor` | amd/amdgpu/amdgpu_device.c:1813-1820 | the balance starts at 0 |
| `MoveThrottle.Throttle.Threshold` | amd/amdgpu/amdgpu_cs.c:277-341 | the new balance in those numbers, which is that of the ledger; the answer is what it buys, and nothing if it is not positive |
| `MoveThrottle.Throttle.ReportMoved` | amd/amdgpu/amdgpu_cs.c:347-353 | the debit of the ledger for a submission that succeeded |
| `UserPages.Drop` | amd/amdgpu/amdgpu_cs.c:553-557 | letting go of an array keeps every array accounted for |
| `UserPages.Take` | amd/amdgpu/amdgpu_cs.c:586-594 | a new array keeps every array accounted for |
| `UserPages.Parser.constructor` | amd/amdgpu/amdgpu_bo_list.c:206 | no entry has a page array |
| `UserPages.Parser.Look` | amd/amdgpu/amdgpu_cs.c:547-558 | an array is released exactly if the invalidation count changed since the last look; one that is kept was not invalidated since it was filled |
| `UserPages.Parser.Scan` | amd/amdgpu/amdgpu_cs.c:541-567 | the entries listed are exactly those neither bound nor carrying an array; every array left was not invalidated |
| `UserPages.Parser.FillOne` | amd/amdgpu/amdgpu_cs.c:584-600 | an entry gets an array, or none is left behind |
| `UserPages.Parser.Fill` | amd/amdgpu/amdgpu_cs.c:582-601 | on success every listed entry has an array; no other entry changes |
| `UserPages.Parser.GetPages` | amd/amdgpu/amdgpu_cs.c:526-605 | at most ten passes, -EDEADLK only after ten, the last of which found an entry without pages; after a normal exit every entry is bound or carries an array not invalidated since it was filled |
| `UserPages.Parser.Bind` | amd/amdgpu/amdgpu_cs.c:475-494 | the array of an entry stays with it, or is handed to TTM and the buffer, unbound before, is bound; entries not reached are unchanged; on success all entries reached are bound |
| `UserPages.Parser.Validate` | amd/amdgpu/amdgpu_cs.c:486 | the contract of validation: the buffer is bound, or nothing happens |
| `UserPages.Parser.BindOne` | amd/amdgpu/amdgpu_cs.c:475-493 | the array is handed over exactly if the entry carries one, nobody has bound the buffer, and validation succeeds |
| `UserPages.Parser.FreePages` | amd/amdgpu/amdgpu_cs.c:677-695 | every array not disposed of before is released |
| `UserPages.Parser.ParserBos` | amd/amdgpu/amdgpu_cs.c:498-698 | on every path each array ever allocated is disposed of exactly once; after giving up none was handed over |
| `CtxFences.Slot` | amd/amdgpu/amdgpu_ctx.c:254 | the low bits of the handle are its residue |
| `CtxFences.AddsNewest` | amd/amdgpu/amdgpu_ctx.c:246-273 | after any run of adds each slot holds the newest fence of its residue |
| `CtxFences.GetAgreesWithHistory` | amd/amdgpu/amdgpu_ctx.c:275-298 | for every history: -EINVAL exactly for handles not issued, nothing for 0 and for handles a window old, otherwise exactly the fence issued |
| `CtxFences.AddWaitsForOldest` | amd/amdgpu/amdgpu_ctx.c:254-261 | the fence an add waits for is exactly the one issued a window before |
| `CtxFences.AddsNext` | amd/amdgpu/amdgpu_ctx.c:264-267 | adding continues the history |
| `CtxFences.CtxRing.constructor` | amd/amdgpu/amdgpu_ctx.c:37-48 | the window starts empty, with handle 1 next |
| `CtxFences.CtxRing.AddFence` | amd/amdgpu/amdgpu_ctx.c:246-273 | the fence is issued under the next handle, and every fence that left the window has signalled unless its wait failed |
| `CtxFences.CtxRing.WaitFor` | amd/amdgpu/amdgpu_ctx.c:256-261 | after a successful wait the replaced fence has signalled |
| `CtxFences.CtxRing.GetFence` | amd/amdgpu/amdgpu_ctx.c:275-298 | the exact fence, -EINVAL, or nothing only for handle 0 or a fence that has signalled unless its wait failed |
| `CtxFences.RoundUpPow2` | amd/amdgpu/amdgpu_device.c:996 | a power of two, not below the argument and below twice it |
| `CtxFences.NormaliseJobsIff` | amd/amdgpu/amdgpu_device.c:989-997 | the result is a power of two, at least 4 and at least the request, exactly for requests up to 2^30, and then the least such |
| `CtxFences.LargeRequestTurnsNegative` | amd/amdgpu/amdgpu_device.c:993-997 | a request of 2^30 + 1 turns the setting negative |
| `CtxFences.WindowsAskedIff` | amd/amdgpu/amdgpu_ctx.c:37-38 | the windows of all 16 rings are asked for, each a large enough power of two, exactly for requests up to 2^26 |
| `IrqRefcount.InitInv` | amd/amdgpu/amdgpu_irq.c:304-330 | the state before any use satisfies the invariant |
| `IrqRefcount.StepKeepsWellFormed` | amd/amdgpu/amdgpu_irq.c:388-482 | every step keeps the lock discipline |
| `IrqRefcount.StepKeepsCorrected` | amd/amdgpu/amdgpu_irq.c:388-482 | unless a call on the line has still to read the count, the last count read is positive exactly if the count is, and the decision under way or the hardware is what it asked for |
| `IrqRefcount.StepKeepsInv` | amd/amdgpu/amdgpu_irq.c:388-482 | every step keeps the invariant, resets included |
| `IrqRefcount.RunKeepsInv` | amd/amdgpu/amdgpu_irq.c:388-482 | the invariant holds in every state of every interleaving |
| `IrqRefcount.QuiescentProgrammedIff` | amd/amdgpu/amdgpu_irq.c:388-482 | with no call pending on a line, and the helper past it since the last reset, the hardware is enabled exactly if the last count read was not 0; this agrees with (count > 0) if and only if that count was not negative |
| `IrqRefcount.CountIsHeld` | amd/amdgpu/amdgpu_irq.c:430-482 | in every run the count of a line is the number of references taken less those dropped |
| `IrqRefcount.BalancedNeverNegative` | amd/amdgpu/amdgpu_irq.c:430-482 | if callers of a line drop only references they hold, neither its count nor any reading of it is negative |
| `IrqRefcount.BalancedMeansProgrammed` | amd/amdgpu/amdgpu_irq.c:388-482 | then, with no call pending, its hardware is enabled exactly if the count is positive |
| `IrqRefcount.UnbalancedPutMisprograms` | amd/amdgpu/amdgpu_irq.c:466-482 | a run in which one put too many leaves the hardware enabled |
| `IrqRefcount.Device.constructor` | amd/amdgpu/amdgpu_irq.c:217-260 | the device before any use is the initial state of the step relation |
| `IrqRefcount.Device.Update` | amd/amdgpu/amdgpu_irq.c:388-407 | an update that is not disturbed is the steps Lock, Decide and Program; with interrupts off it disables the line |
| `IrqRefcount.Device.Acquire` | amd/amdgpu/amdgpu_irq.c:430-446 | error cases without a change; otherwise exactly the undisturbed run that starts with Get |
| `IrqRefcount.Device.Release` | amd/amdgpu/amdgpu_irq.c:466-482 | error cases without a change; otherwise exactly the undisturbed run that starts with Put |
| `IrqRefcount.Device.ResumeAll` | amd/amdgpu/amdgpu_irq.c:409-419 | the undisturbed runs of the helper on exactly the existing types; from any hardware state each is then programmed from its count and nothing else changes |
| `IrqRefcount.AloneMeans` | amd/amdgpu/amdgpu_irq.c:430-482 | what an undisturbed call does: the hardware follows the count exactly if the first reference came, the last one went, or the helper asks |
| `IrqRefcount.AloneIsRun` | amd/amdgpu/amdgpu_irq.c:388-482 | an undisturbed call continues any run of the step relation that has come to rest |
| `IrqRefcount.HelpedMeans` | amd/amdgpu/amdgpu_irq.c:409-419 | after the helper has been over a line its hardware follows its count; other lines are as before |
| `IrqRefcount.SequenceProgrammedIff` | amd/amdgpu/amdgpu_irq.c:388-482 | after any calls that do not overlap, a line is rightly programmed exactly if its last reading was not negative |
| `PageFlip.SlotConserves` | amd/amdgpu/amdgpu_display.c:47-62 | handling a slot conserves fence references |
| `PageFlip.SlotKeepsInv` | amd/amdgpu/amdgpu_display.c:47-62 | handling a slot keeps the invariant |
| `PageFlip.CallbackConserves` | amd/amdgpu/amdgpu_display.c:38-45 | the callback drops exactly its reference |
| `PageFlip.CallbackKeepsInv` | amd/amdgpu/amdgpu_display.c:38-45 | the callback keeps the invariant |
| `PageFlip.StepKeepsInv` | amd/amdgpu/amdgpu_display.c:38-170 | every step keeps the invariant; no step but the request and the completion looks at the flip status |
| `PageFlip.RunKeepsInv` | amd/amdgpu/amdgpu_display.c:38-170 | the invariant holds in every state of every run |
| `PageFlip.AcceptedIff` | amd/amdgpu/amdgpu_display.c:279-295 | a request can always be made; it is accepted exactly if no flip is in progress, and otherwise nothing changes |
| `PageFlip.ProgrammedAfterAllFences` | amd/amdgpu/amdgpu_display.c:100-111 | in every run, when a flip is programmed, every fence of the last request that was made with no flip in progress has signalled, and the reference of each of its slots has been dropped exactly once |
| `PageFlip.ProgrammedOnce` | amd/amdgpu/amdgpu_display.c:279-295 | each accepted flip is programmed exactly once, and callback and work function only ever run while it is pending |
| `PageFlip.CallbackNeverRearmed` | amd/amdgpu/amdgpu_display.c:47-62 | in every run the embedded callback is armed only when free, and resumptions are bounded by the number of fences |
| `PageFlip.ResumedOncePerSlot` | amd/amdgpu/amdgpu_display.c:38-62 | in every run the callback has queued the work at most once per slot of the request the flip belongs to |
| `PageFlip.NeverStranded` | amd/amdgpu/amdgpu_display.c:38-111 | a pending flip can go on as soon as the fence it is parked on has signalled |
| `PageFlip.ProgramsIff` | amd/amdgpu/amdgpu_display.c:38-111 | in every run a pending flip can go on to be programmed, by its own steps, exactly if all fences it still has to wait for have signalled |
| `PageFlip.HandleFence` | amd/amdgpu/amdgpu_display.c:47-62 | the slot is cleared; the callback is armed on an unsignalled fence, a signalled one is put |
| `PageFlip.HandleFences` | amd/amdgpu/amdgpu_display.c:106-111 | the pass stops exactly at the first unsignalled fence, with everything up to it cleared and dropped |
| `BoList.SlotsDiffer` | amd/amdgpu/amdgpu_bo_list.c:104-129 | different items go to different slots |
| `BoList.SlotsInOrder` | amd/amdgpu/amdgpu_bo_list.c:126-129 | plain buffers are in request order from the left, user memory from the right |
| `BoList.SlotsParted` | amd/amdgpu/amdgpu_bo_list.c:126-128 | user memory and plain buffers are parted at `first_userptr` |
| `BoList.FilledNext` | amd/amdgpu/amdgpu_bo_list.c:120-131 | the next item goes to a free slot |
| `BoList.AllFilled` | amd/amdgpu/amdgpu_bo_list.c:104-146 | once every item is placed no slot is empty |
| `BoList.Fill` | amd/amdgpu/amdgpu_bo_list.c:104-146 | stops at the first bad item, with every item before it in its slot |
| `BoList.CleanUp` | amd/amdgpu/amdgpu_bo_list.c:163-165 | drops exactly the references in the slots walked |
| `BoList.CleanUpCompleteIff` | amd/amdgpu/amdgpu_bo_list.c:163-165 | the error path drops every reference exactly if no user memory came before the failure |
| `BoList.CleanUpLeaks` | amd/amdgpu/amdgpu_bo_list.c:163-165 | user memory followed by an unknown handle: its reference is never dropped |
| `BoList.SetList` | amd/amdgpu/amdgpu_bo_list.c:83-168 | -ENOENT or -EPERM for the first bad item; on success each buffer in its slot, with its priority capped at 32, and user memory exactly from `first_userptr` on; exactly which references remain on failure |
| `BoList.DescendingStable` | amd/amdgpu/amdgpu_bo_list.c:193-211 | entries of equal priority keep their order |
| `BoList.SortedIsStableSort` | amd/amdgpu/amdgpu_bo_list.c:193-211 | the sorted list is a permutation, in descending order, and stable |
| `BoList.StableSortUnique` | amd/amdgpu/amdgpu_bo_list.c:193-211 | it is the only list that is ordered and stable |
| `BoList.FillBuckets` | amd/amdgpu/amdgpu_bo_list.c:193-207 | each bucket holds the entries of its priority in list order |
| `BoList.GetList` | amd/amdgpu/amdgpu_bo_list.c:183-212 | the sorted list goes in front of the given one |
| `IpBlocks.FirstSmc` | amd/amdgpu/amdgpu_device.c:1447-1451 | the first SMC block with hardware state |
| `IpBlocks.TeardownCount` | amd/amdgpu/amdgpu_device.c:1447-1502 | teardown runs each callback that undoes recorded state exactly once, and no other |
| `IpBlocks.HardwareBeforeSoftware` | amd/amdgpu/amdgpu_device.c:1470-1502 | every `hw_fini` comes before every `sw_fini` |
| `IpBlocks.TeardownOrder` | amd/amdgpu/amdgpu_device.c:1447-1491 | the SMC goes first and the other blocks in reverse order |
| `IpBlocks.TeardownRanked` | amd/amdgpu/amdgpu_device.c:1447-1502 | the complete order: the SMC; then block by block from the last, write-back and scratch memory, ungating and `hw_fini`; then `sw_fini` from the last block |
| `IpBlocks.Device.constructor` | amd/amdgpu/amdgpu_device.c:1335-1354 | no block is up |
| `IpBlocks.Device.EarlyHw` | amd/amdgpu/amdgpu_device.c:1376-1392 | the early hardware initialisation of a memory controller, with what is left behind at each failure |
| `IpBlocks.Device.EarlyBlock` | amd/amdgpu/amdgpu_device.c:1369-1393 | one block of the first pass: `sw_init`, and for the memory controller its hardware |
| `IpBlocks.Device.EarlyPass` | amd/amdgpu/amdgpu_device.c:1366-1394 | the first pass succeeds exactly if no block fails; exactly which flags are set otherwise; the log, which is in block order, agrees with the flags except for a stuck memory controller |
| `IpBlocks.Device.LatePass` | amd/amdgpu/amdgpu_device.c:1396-1408 | the second pass brings up the rest in order, up to the first failure, and runs no `sw_init` |
| `IpBlocks.Device.Init` | amd/amdgpu/amdgpu_device.c:1362-1411 | succeeds exactly if every callback of a valid block does; then all valid blocks are up; only memory controllers touch hardware before all software state is there, and each callback has its place in one order |
| `IpBlocks.Device.FiniSmc` | amd/amdgpu/amdgpu_device.c:1447-1469 | the SMC loses its hardware state first, or ungating it fails and nothing changes |
| `IpBlocks.Device.FiniHw` | amd/amdgpu/amdgpu_device.c:1471-1491 | all hardware state goes, or the loop stops at a block that cannot be ungated |
| `IpBlocks.Device.FiniSw` | amd/amdgpu/amdgpu_device.c:1493-1504 | all software state goes, in reverse order |
| `IpBlocks.Device.Fini` | amd/amdgpu/amdgpu_device.c:1443-1514 | fails exactly if a block with hardware state cannot be ungated, and then no software state goes; otherwise everything goes |
| `IpBlocks.AllUndone` | amd/amdgpu/amdgpu_device.c:1362-1514 | over bring-up and teardown every callback is undone except those of a stuck memory controller |
| `IpBlocks.Device.Lifecycle` | amd/amdgpu/amdgpu_device.c:1804-1809 | for any failure point, teardown undoes exactly what bring-up did, except for a memory controller stuck half way; `hw_fini` and `sw_fini` exactly once for each block that was up; bring-up and teardown are each in the one order stated, the SMC first and the others in reverse; all flags end false |
| `IpBlocks.StuckControllerNotUndone` | amd/amdgpu/amdgpu_device.c:1376-1392 | a memory controller whose write-back memory fails: `hw_init` and scratch memory are not undone |
| `IbSchedule.EmittedMeans` | amd/amdgpu/amdgpu_ib.c:198-210 | exactly the buffers that are no preamble, or all of them if none is to be skipped, are emitted, in order; only the first can ask for a context switch |
| `IbSchedule.FrameMeans` | amd/amdgpu/amdgpu_ib.c:189-210 | the frame of a call holds, in order, every buffer that is no preamble, and the preambles exactly if the context is another or the job insists; the first asks for a switch exactly if the context is another |
| `IbSchedule.FrameLoads` | amd/amdgpu/amdgpu_ib.c:189-210 | a frame for another context loads it with its first buffer; one for the noted context loads nothing |
| `IbSchedule.CurrentIsLoadedIff` | amd/amdgpu/amdgpu_ib.c:189-236 | after every run of calls and GPU resets the hardware has loaded `current_ctx` exactly if there was no reset, or some successful call since the last one was for another context than the one noted |
| `IbSchedule.RunsInContextIff` | amd/amdgpu/amdgpu_ib.c:189-236 | in every run a successful call adds one frame; all its buffers run in its context exactly if the note was not stale or the call is for another context |
| `IbSchedule.ResetLeavesStaleNote` | amd/amdgpu/amdgpu_ib.c:233 | after a call and a reset the note still names the context of the call, and none is loaded |
| `IbSchedule.OtherContextRecovers` | amd/amdgpu/amdgpu_ib.c:189-236 | a successful call for another context ends that until the next reset |
| `IbSchedule.PreambleDroppedOnlyIfNoted` | amd/amdgpu/amdgpu_ib.c:201-205 | in every run a preamble is left out exactly for the noted context and if the job does not insist, all else is emitted in order; the noted context is loaded exactly if the note is not stale |
| `IbSchedule.Ring.constructor` | amd/amdgpu/amdgpu_ib.c:189-190 | the ring starts empty |
| `IbSchedule.Ring.EmitAll` | amd/amdgpu/amdgpu_ib.c:198-210 | the loop emits exactly the frame |
| `IbSchedule.Ring.Schedule` | amd/amdgpu/amdgpu_ib.c:121-238 | the error of the first part that fails, or success; then one more frame with exactly the buffers to run; a failed call leaves the commands on the ring and its context unchanged |
| `GttManager.StepBalances` | amd/amdgpu/amdgpu_gtt_mgr.c:149-214 | one call changes the balance only by the pages it loses |
| `GttManager.Conserved` | amd/amdgpu/amdgpu_gtt_mgr.c:149-214 | in every run the pages available, allocated and lost add up to the size |
| `GttManager.AllReturnedIff` | amd/amdgpu/amdgpu_gtt_mgr.c:149-214 | the GTT is never overcommitted; with no node left it is all available exactly if no call failed after its debit |
| `GttManager.PagesLost` | amd/amdgpu/amdgpu_gtt_mgr.c:174-179 | a failed range allocation loses its pages |
| `GttManager.Manager.constructor` | amd/amdgpu/amdgpu_gtt_mgr.c:42-56 | all pages are available |
| `GttManager.Manager.Allocate` | amd/amdgpu/amdgpu_gtt_mgr.c:149-185 | no node without an error when pages are short or no range is found; -ENOMEM exactly without memory for the node |
| `GttManager.Manager.Free` | amd/amdgpu/amdgpu_gtt_mgr.c:197-214 | gives the pages of a node back; nothing without a node |
| `Apertures.MaskRounds` | amd/amdgpu/amdgpu_device.c:611-612 | masking rounds down to the alignment |
| `Apertures.VramFitsIff` | amd/amdgpu/amdgpu_device.c:577-587 | VRAM is cut, to the aperture, exactly if it does not fit; it ends inside the address space exactly if it or the aperture fits |
| `Apertures.Complement` | amd/amdgpu/amdgpu_device.c:611 | the space above VRAM rounded up is what rounding its end down leaves |
| `Apertures.GttLocation` | amd/amdgpu/amdgpu_device.c:607-629 | the GTT is aligned, directly below or above VRAM, never meets it and is no larger than requested |
| `Apertures.SpaceAboveMeans` | amd/amdgpu/amdgpu_device.c:611 | the room above VRAM in 64-bit arithmetic, also for VRAM that runs past the address space |
| `Apertures.GttFitsIff` | amd/amdgpu/amdgpu_device.c:607-629 | which side the GTT goes to, also for VRAM that runs past the address space; it is cut only to that side, and fits the address space exactly under the stated condition on the request |
| `Apertures.GttRunsOver` | amd/amdgpu/amdgpu_device.c:611-625 | a placement above VRAM that runs past the end |
| `Apertures.VramRunsOver` | amd/amdgpu/amdgpu_device.c:577-629 | VRAM cut to an aperture that does not fit, with the GTT placed beyond it |
| `GartTable.EntryAt` | amd/amdgpu/amdgpu_gart.c:286-299 | entry t + i * ratio + j is `dma_addr[i]` + j * 4096 |
| `GartTable.Commute` | amd/amdgpu/amdgpu_gart.c:225-304 | operations on disjoint ranges commute |
| `GartTable.LastWriterWins` | amd/amdgpu/amdgpu_gart.c:225-304 | after any run an entry holds what the last operation covering it wrote, or what it held at first |
| `GartTable.UnbindRestores` | amd/amdgpu/amdgpu_gart.c:239-254 | unbinding leaves dummy-page entries in the range and changes nothing else |
| `GartTable.BindUnbind` | amd/amdgpu/amdgpu_gart.c:225-304 | binding over unbound entries and unbinding again restores the table |
| `GartTable.Gart.constructor` | amd/amdgpu/amdgpu_gart.c:314-345 | a ready table |
| `GartTable.Gart.WritePage` | amd/amdgpu/amdgpu_gart.c:294-298 | the inner loop writes exactly the entries of one CPU page |
| `GartTable.Gart.WritePages` | amd/amdgpu/amdgpu_gart.c:286-300 | the nested loops write exactly the entries of the range, for any page-size ratio |
| `GartTable.Gart.Bind` | amd/amdgpu/amdgpu_gart.c:272-304 | -EINVAL exactly if the GART is not ready; without a mapped table nothing is written |
| `GartTable.Gart.Unbind` | amd/amdgpu/amdgpu_gart.c:225-257 | the range is filled with the dummy page; nothing if not ready or not mapped |
| `GartTable.Gart.Fini` | amd/amdgpu/amdgpu_gart.c:354-366 | every entry of a whole CPU page ends as a dummy entry and the GART is not ready |
| `HdmiAcr.ReducedDivides` | amd/amdgpu/amdgpu_afmt.c:60-64 | every exact N is a multiple of the reduced numerator |
| `HdmiAcr.Scaling` | amd/amdgpu/amdgpu_afmt.c:56-73 | reducing and rescaling gives the least exact pair, no larger than the unreduced numbers |
| `HdmiAcr.Rescale` | amd/amdgpu/amdgpu_afmt.c:56-73 | the computation returns that pair |
| `HdmiAcr.CalcCts` | amd/amdgpu/amdgpu_afmt.c:51-86 | N * clock * 1000 = CTS * 128 * freq (section 7.2 of the HDMI 1.3a specification) with the least such N not below 128 * freq / 1000; the "too small" warning never fires; nothing overflows |
| `HdmiAcr.TableExact` | amd/amdgpu/amdgpu_afmt.c:32-45 | every row of the table is exact |
| `HdmiAcr.LookUp` | amd/amdgpu/amdgpu_afmt.c:88-105 | exact for all three audio rates; a table row exactly for the clocks of the table; otherwise the least N |
| `DpmScale.ScaledFits` | amd/amdgpu/amdgpu_dpm.c:171-181 | scaling by 4^u makes the interval fit exactly if the shifted interval has at most 2u bits |
| `DpmScale.CalculateUAndP` | amd/amdgpu/amdgpu_dpm.c:164-181 | u is the least scaling that makes the interval fit in the given bits, p the scaled interval; no shift reaches the word size |

## Left out

- The register, ACPI, PCI and firmware-table code, the interrupt ring, mode setting, ioctl copying, debugfs, tracing.
- TTM, drm_mm, RCU, timers, the scheduler and the fence library: their calls are steps with the contracts stated at them.
- Allocation failures other than the branches named in the table.
- FenceRing.RunKeepsInv: a thread whose exchange succeeds is assumed to be late by fewer than 2^32 claims;
  `FenceLimits.StaleExchangeSignalsEarly` shows that the bound is tight. A forced completion is assumed to find no emission
  half done: the GPU reset parks the scheduler first, the other two callers do not, and `FenceRing.ForceSafeIff` and
  `FenceUndo.ForcedTooEarly` say what that means. What is on the ring is taken not to be executed after it.
- FenceRing: the fallback timer, references to fence objects, and the case of a ring whose fence word has no CPU address.
- FenceDriver.Ring.Emit: every frame is committed, and the other caller that processes fences during the wait is one call;
  undone frames and overlapping calls are the subject of `FenceRing`.
- UserptrIndex: wrap-around of user addresses at 2^64. User memory at address 0, and memory the calling task is itself
  pinning, is never affected, as in the source.
- UserptrIndex.Notifier.InvalidateNode: a buffer whose reservation fails is only logged and skipped; the model counts it as
  reached, because reservation belongs to TTM.
- CsPlacement.Parser.constructor: domains of a buffer are those its creation sets (preferred ones allowed, more only for
  VRAM); the same buffer is on the list once, as TTM's reservation ensures.
- CsPlacement.Parser.ListValidate: the list of duplicates and the page-table buffers validated by the same routine. How
  the validations of several buffers can combine to take foreign entries out of the walk is shown for one at a time.
- MoveThrottle: moves counted for one submission that another task made meanwhile; 64-bit overflow of the balance; the
  spin lock, whose critical sections are the events of a run.
- UserPages.Parser.Validate: the result is any, since `CsPlacement` models it; the copy of a page array left in TTM when
  validation then fails.
- UserPages.Parser.FreePages: the entries are not reset by the source, and `amdgpu_bo_list_get_list` resets them.
- CtxFences: references to fences, and contexts with several rings (each ring has its own window).
- IrqRefcount.Device.Acquire: the result of the hardware callback, which the source returns unchanged;
  `amdgpu_irq_get_delayed`, which leaves the update to its caller; sources without counts, since registration allocates them.
- PageFlip: the delay loop before the flip is programmed, pinning, and the error paths of the request.
- BoList.SetList: the GDS, GWS and OA buffers picked on the way, and the references of the list being replaced.
- IpBlocks: `late_init` and `late_fini`; partial effects of a callback that fails; several memory controllers are allowed.
- IbSchedule.Ring.Schedule: the number and slot of the fence a VM flush emitted before the call failed, which `FenceRing`
  models; what else is in a frame (flushes, conditional execution, user fences); a buffer with a switch
  request is taken to load the context of its frame.
- GttManager: where a node is placed, which belongs to drm_mm.
- Apertures.GttFitsIff: address spaces whose size is not a multiple of the alignment, because both are powers of two.
- GartTable: the debug copy of the page list, the TLB flush, and the bit format of an entry.
- HdmiAcr.CalcCts: clocks of 2^31 / 1000 kHz and more, because `clock * 1000` then no longer fits the source's `int`.
- DpmScale.CalculateUAndP: shift counts of 32 and more, which the source leaves undefined.

# A verified model of timer, memory-topology, ring and boot-allocator code

This project models parts of the Linux kernel and of QEMU whose correctness rests on invariants
that no single function shows: the timer wheel, the path from QEMU's memory-region tree to the
dispatch table that answers guest accesses, the split virtqueue, the boot memory allocator, the
memory slots of KVM and vhost, and the lock-free pageblock flags. Data that the C code updates in
place is a class or an array with methods proved against value-level specifications; the theorems
are about those specifications and about whole runs.

- **Timer wheel** (`TimerWheel`, `TimerRun`, `TimerFifo`, `TimerOrder`, `TimerNext`, `TimerBase`, `TimerWord`).
  The buckets of tv1 to tv5 are one vector of 512 lists, followed by the work list of the turn in progress.
  The invariant `Inv` says in which buckets a timer may wait, given its expiry and the jiffy that the
  base has reached. Runs interleave clock ticks, `mod_timer`, `del_timer`, turns of the wheel and
  the running of single timers, so callbacks may do anything between two timers. Every run is
  shown to be a run of a plain bag of (timer, expiry) pairs.
- **Memory topology** (`MemoryRegions`, `FlatViews`, `Subregions`, `TopologyDiff`, `RadixMap`,
  `RadixCompact`, `MemDispatch`, `MemoryPipeline`). A region tree means a function from addresses
  to a target (region, offset, read-only, ROM-device mode). Rendering into a flat view, the
  two-pass diff for listeners, the radix map of pages, its compaction and the splitting of
  sections into pages and subpages each keep that meaning, and `MemoryPipeline` joins them.
- **Virtqueue** (`Virtqueues`). The descriptor table, the free list threaded through it, the token
  table and the available ring, with a ghost history of all buffers added and returned.
- **Boot allocator** (`MemblockRegions`, `MemblockTypes`, `MemblockAlloc`). Region lists stand for
  the set of their addresses, each with a node and flags.
- **Memory slots** (`KvmSlots`, `VhostRegions`). Both tables stand for a relation between guest
  addresses and host addresses.
- **Pageblock flags** (`Pageblock`). Any number of writers, interleaved at the atomic steps of the
  retry loop. A word is the set of its bits that are 1.

What comes from outside is a parameter: the current jiffies, what callbacks delete and arm, whether an
indirect descriptor table could be allocated and where, what the device wrote into the used ring,
the merge rule of the vhost backend, page sizes and the number of map levels.

Where text and code disagree, the code is followed. The remark at timer/timer_list.c:554-559 says
that a cascade only ever fills tv1; `CascadeRefillsSecond` gives a timer that goes from tv3 to tv2,
and `ReinsertedIntoFirst` says exactly which timers go to tv1. The remark at
timer/timer_list.c:314-316 says that timers are first-in first-out. The code keeps that order for timers
of one bucket, as `FirstInFirstOut` states. For a timer that is set to the expiry of a pending one,
`FirstInFirstOutIff` says exactly when the pending one is run first, and `Overtaking` is a run in which it
is not. The comment at qemu/mem.c:331 speaks of the bits there are, which are 6; the code stops at skips
below 8.

## Model

| member | source | states |
|---|---|---|
| `TimerWheel.SlotPlaced` | timer/timer_list.c:254-319 | whatever levels have been cascaded for the current jiffy, the bucket chosen by distance (with past and far-future expiries clamped) is one in which the timer meets its due jiffy |
| `TimerWheel.ReinsertedIntoFirst` | timer/timer_list.c:266-300 | insertion goes to tv1 if and only if the timer is due within 256 jiffies |
| `TimerWheel.CascadeRefillsSecond` | timer/timer_list.c:539-564 | a concrete timer that a cascade moves from tv3 into tv2 |
| `TimerWheel.SlotAvoidsCascaded` | timer/timer_list.c:539-564 | re-insertion during a cascade never lands in the bucket being emptied |
| `TimerWheel.CascadeKeepsOthers` | timer/timer_list.c:487-496 | every bucket but the one cascaded is still right when its level moves on one block |
| `TimerWheel.DueNow` | timer/timer_list.c:481-505 | once the levels are cascaded, the current bucket of tv1 holds exactly the timers that are due, and the others are well placed for the next jiffy |
| `TimerWheel.CascadeTimely` | timer/timer_list.c:539-564 | emptying one bucket by re-insertion moves the wheel's placement invariant up one level |
| `TimerWheel.CascadeFromTimely` | timer/timer_list.c:487-496 | the chain of cascades that stops at the first index other than 0 cascades every level that needs it |
| `TimerWheel.TickCorrect` | timer/timer_list.c:472-505 | a turn moves to the work list exactly the timers whose expiry is not after the jiffy, loses none, and leaves the wheel right for the next jiffy |
| `TimerWheel.CatchUpInv` | timer/timer_list.c:66-74 | jumping to the current time keeps the invariant, because nothing is linked when it happens |
| `TimerWheel.DetachInv` | timer/timer_list.c:147-166 | deletion keeps the invariant, links and counters, and removes that timer alone |
| `TimerWheel.InternalAddInv` | timer/timer_list.c:223-252 | adding keeps the invariant and every other timer's bucket |
| `TimerWheel.ModTimerInv` | timer/timer_list.c:169-221 | modifying, also of a pending timer and also in the middle of a turn, keeps the invariant and gives the new expiry |
| `TimerWheel.TickInv` | timer/timer_list.c:472-505 | a turn keeps links, counters and `next_timer` bound |
| `TimerWheel.ExpireInv` | timer/timer_list.c:567-575 | taking the first expired timer keeps the invariant even when it was the last timer and the base jumps ahead |
| `TimerRun.StepRefines` | timer/timer_list.c:459-537 | each step of the wheel is the same step of a bag of pending timers: five levels and cascades do not show |
| `TimerRun.RunGood` | timer/timer_list.c:459-537 | the invariant holds in every state of every run |
| `TimerRun.RunCounters` | timer/timer_list.c:147-166 | in every reachable state `all_timers` and `active_timers` are the numbers of pending and of pending non-deferrable timers, and `next_timer` is no later than any of these is due |
| `TimerRun.RunRefines` | timer/timer_list.c:459-537 | every run of the wheel is a run of the bag, from the empty bag on |
| `TimerRun.FiresOnTime` | timer/timer_list.c:459-537 | in every run a timer left alone keeps its due jiffy, is never passed over, and is taken for running only in the turn of exactly that jiffy and not before it has come |
| `TimerRun.TakenIsRun` | timer/timer_list.c:508-533 | in every run a timer on the work list that nobody touches is still there or has been run from there, in both cases without a further turn before that |
| `TimerRun.RunsOnTime` | timer/timer_list.c:459-537 | from waiting to running: an untouched timer still waits for its due jiffy, or was taken by the turn of exactly that jiffy and then has been run before any further turn, or is next to be run without one |
| `TimerRun.TurnsBounded` | timer/timer_list.c:472-533 | while the clock stands and one timer that is not yet due waits untouched, the turns are counted exactly by `timer_jiffies` and at most as many as the base is behind plus one, whatever callbacks arm |
| `TimerRun.EndlessRounds` | timer/timer_list.c:472-533 | without such a timer they are not bounded: for every number of rounds there is a run, with the clock standing still, in which the only timer is run and arms itself for the current jiffy that often |
| `TimerRun.RunOn` | timer/timer_list.c:459-537 | a run can be continued along any path of enabled steps, so what is proved of all runs is true of the steps that the method takes |
| `TimerFifo.LinkedLast` | timer/timer_list.c:314-318 | a timer is linked behind everything already in its bucket |
| `TimerFifo.CascadeFifo` | timer/timer_list.c:539-564 | a cascade keeps the order of two timers of a tv1 bucket, and of two timers with the same expiry in any bucket, the emptied one included |
| `TimerFifo.StepFifo` | timer/timer_list.c:505-522 | no step reverses two such timers, and the one behind does not leave first |
| `TimerFifo.FirstInFirstOut` | timer/timer_list.c:314-318 | over every run, of two timers in one bucket of tv1, or with the same expiry in one bucket of any level, that nobody touches the one ahead stays ahead until it is taken off |
| `TimerOrder.SlotLevel` | timer/timer_list.c:254-300 | the level on which a timer is linked depends on its distance alone, and on tv2 to tv4 its bucket is that of its own expiry |
| `TimerOrder.RunNear` | timer/timer_list.c:254-300 | in every state of every run a timer on tv2 to tv4 is in the bucket of its own expiry, which is within the reach of that level |
| `TimerOrder.Meets` | timer/timer_list.c:539-564 | when a bucket is cascaded, a timer goes into exactly the bucket where a timer with the same expiry waits on a lower level |
| `TimerOrder.GoesDown` | timer/timer_list.c:539-564 | a timer cascaded from tv2, tv3 or tv4 goes to a lower level |
| `TimerOrder.CascadeBehind` | timer/timer_list.c:539-564 | and where it meets one with the same expiry it is linked behind it |
| `TimerOrder.CascadeLower` | timer/timer_list.c:539-564 | so a cascade of any level leaves the timer on the lower level first |
| `TimerOrder.LandingApart` | timer/timer_list.c:301-313 | two timers clamped into different buckets of tv5 come within its reach at the same cascade only if one bucket is where the other one is moved next |
| `TimerOrder.CascadeFar` | timer/timer_list.c:301-313 | so for two timers with the same expiry in different buckets of tv5 a cascade keeps the order in which they come within its reach |
| `TimerOrder.TickPrecedes` | timer/timer_list.c:472-505 | a whole turn of the wheel leaves first the timer that was to be run first |
| `TimerOrder.StepPrecedes` | timer/timer_list.c:459-537 | and so does every other step, until that timer is run while the other one is still pending |
| `TimerOrder.OrderKept` | timer/timer_list.c:314-318 | over every run, of two untouched timers with the same expiry the one that is to be run first, from whatever buckets, stays so until it has been run, and until then the other one is pending |
| `TimerOrder.SameBucketOrLower` | timer/timer_list.c:254-300 | an expiry that is linked again goes into the bucket where it waits below tv5, or to a lower level |
| `TimerOrder.ModDecides` | timer/timer_list.c:169-221 | setting a timer to the expiry of a pending one settles their order there and then |
| `TimerOrder.RearmKeepsPlace` | timer/timer_list.c:113-131 | setting a pending timer to the expiry that it has leaves every bucket and the order of all timers alone |
| `TimerOrder.FirstInFirstOutIff` | timer/timer_list.c:314-318 | the exact condition for first in, first out, over every run and all levels: of a pending timer and one that is set to the same expiry later, the earlier one is run first if and only if, before that call, it is on the work list or in the bucket that is chosen now, or the two are clamped into different buckets of tv5 and the earlier one comes within reach first |
| `TimerOrder.KeepsWithinReach` | timer/timer_list.c:301-313 | for expiries within the reach of the wheel the last case does not arise |
| `TimerOrder.Overtaking` | timer/timer_list.c:314-318 | a run in which a timer is overtaken: it is set for jiffy 256 at jiffy 0, and another one for the same jiffy one turn later |
| `TimerOrder.ClampedApart` | timer/timer_list.c:301-313 | expiries beyond the reach of the wheel for which timers of different buckets of tv5 stay in order and for which they do not |
| `TimerNext.AddSetsNext` | timer/timer_list.c:231-234 | adding a timer that is not deferrable makes `next_timer` its expiry if it is the only one of that kind, and otherwise the smaller of both; adding a deferrable one leaves it alone |
| `TimerNext.DelSetsNext` | timer/timer_list.c:157-162 | deleting the timer that `next_timer` stands for moves it back to the current jiffy, and deleting any other leaves it alone |
| `TimerNext.RunNextTimer` | timer/timer_list.c:147-166 | in every state of every run, a `next_timer` in the future is exactly the first expiry of the pending timers that are not deferrable: one of them has it and none an earlier one |
| `TimerBase.TvecBase.constructor` | timer/timer_list.c:372-385 | the initial base satisfies the invariant, holds no timer and is an initial state of the runs |
| `TimerBase.TvecBase.CatchUpJiffies` | timer/timer_list.c:66-74 | implements the specification and reports whether the base was empty |
| `TimerBase.TvecBase.LinkTimer` | timer/timer_list.c:254-319 | links at the tail of the specified bucket and changes nothing else |
| `TimerBase.TvecBase.InternalAddTimer` | timer/timer_list.c:223-252 | implements the specification, with counters |
| `TimerBase.TvecBase.DetachTimer` | timer/timer_list.c:134-144 | takes the timer off its list and changes nothing else |
| `TimerBase.TvecBase.DetachPending` | timer/timer_list.c:147-166 | implements the specification and reports whether the timer was pending |
| `TimerBase.TvecBase.Modify` | timer/timer_list.c:113-131 | the timer is pending afterwards with the new expiry, the invariant holds, and the result says whether it was pending |
| `TimerBase.TvecBase.CascadeLevel` | timer/timer_list.c:539-564 | the loop over the cut-off list re-inserts all of it, in order, as specified, and the index is returned |
| `TimerBase.TvecBase.CascadeAll` | timer/timer_list.c:493-496 | the short-circuited calls cascade exactly the levels that the specification cascades |
| `TimerBase.TvecBase.TurnOfJiffy` | timer/timer_list.c:472-505 | the cascades, the increment and the cut of the bucket are the specified turn |
| `TimerBase.TvecBase.ExpireFirst` | timer/timer_list.c:508-522 | the head of the work list is taken off and accounted for |
| `TimerBase.TvecBase.RunScript` | timer/timer_list.c:524-532 | whatever a callback deletes, arms for later, or arms at all while a timer that is not due waits untouched, the progress of the run loop survives; in the first cases no more timers are due than before; the steps taken are steps of a run and exactly those of the callback |
| `TimerBase.TvecBase.RunWork` | timer/timer_list.c:508-533 | the inner loop empties the work list in order along steps of a run, which are the timers run, each followed by its whole callback; fewer timers are due afterwards unless it was empty, or, with a timer that is spared, the base is at the same jiffy |
| `TimerBase.TvecBase.RunTimers` | timer/timer_list.c:459-537 | terminates with the base one jiffy ahead (or level, if it was empty), for callbacks that arm timers for later only and for callbacks that arm anything but leave alone one timer that is not yet due; the timers run and the final state are those of a path of enabled steps, so that the theorems on runs apply, and each timer that is run has its whole callback called before the next. In the first case also: each fired timer was pending and due and fires once; firing order follows due order; nothing due stays pending; every old timer is pending unchanged, fired, or touched by a callback that ran, and every pending one is old or was armed by such a callback |
| `TimerWord.CompareWords` | timer/timer_list.c:472 | comparison of 64-bit jiffies by signed difference is the order of the unbounded times up to half the range apart, also across wrap-around |
| `TimerWord.LevelSlotWraps` | timer/timer_list.c:281-293 | the bucket index computed on a wrapped word is that of the unbounded time |
| `TimerWord.SlotOnWords` | timer/timer_list.c:254-319 | the whole bucket choice on 64-bit words agrees with the choice on unbounded times |
| `MemoryRegions.LookupInAppend` | qemu/mem.c:753-756 | a lookup in a list of subregions asks the last one only if the ones before it do not answer |
| `MemoryRegions.LookupShift` | qemu/mem.c:733-750 | moving a tree and the address by the same distance changes no answer |
| `MemoryRegions.LookupReadOnly` | qemu/mem.c:735 | a read-only parent changes nothing in what answers, except that it is read-only, through aliases and subregions |
| `MemoryRegions.AliasAnswers` | qemu/mem.c:746-750 | an alias answers at each of its addresses as its target does in its own coordinates, at the distance from the start plus the alias offset, and read-only if the alias is |
| `FlatViews.Intersection` | qemu/mem.c:836-841 | contains exactly the common addresses |
| `FlatViews.IntersectsFindsAll` | qemu/mem.c:830-834 | the test by start addresses misses no common address |
| `FlatViews.FlatView.Insert` | qemu/mem.c:843-856 | a range that lies between its neighbours, for which the caller answers, leaves the view sorted and disjoint; the view then shows that range, and at all other addresses what it showed |
| `FlatViews.FlatView.RenderSelf` | qemu/mem.c:762-798 | a region fills exactly the gaps of the view inside its clip, each address with the right offset, and the view stays sorted and disjoint |
| `FlatViews.FlatView.Render` | qemu/mem.c:715-799 | for every tree, base and clip: addresses already in the view keep their answer, the others in the clip get the answer of the tree |
| `FlatViews.GenerateTopology` | qemu/mem.c:699-713 | the flat view of a root answers every 64-bit address as the tree does, and is sorted and disjoint |
| `Subregions.Position` | qemu/virtio-mem.c:168-175 | the insertion point is before the first subregion whose priority is not higher |
| `Subregions.Container.AddSubregion` | qemu/virtio-mem.c:138-179 | the scan inserts there and keeps the order of all others |
| `Subregions.OrderRanked` | qemu/virtio-mem.c:168-175 | after any sequence of additions the list is ordered by descending priority, and among equals the latest comes first |
| `Subregions.WinnerAnswers` | qemu/virtio-mem.c:138-179 | an address is answered by the highest-priority subregion that maps it, the latest one in a tie, and by none only if none maps it |
| `TopologyDiff.GoneOrChanged` | qemu/mem.c:637-647 | the range that the first branch passes is not in the new view, wherever it would be |
| `TopologyDiff.NewOrChanged` | qemu/mem.c:686-694 | the range that the last branch passes is not in the old view |
| `TopologyDiff.InBoth` | qemu/mem.c:648-685 | the middle branch passes a range of both views |
| `TopologyDiff.EqualIff` | qemu/mem.c:648-649 | ranges pass as unchanged if and only if they lie in the same place and lead to the same region, offset and access rights at every address; only logging may differ |
| `TopologyDiff.CoresAnswer` | qemu/mem.c:590-596 | the ranges of a flat view answer every address as the view does |
| `TopologyDiff.Listener.RegionDel` | qemu/mem.c:644 | a listener is told to drop only what it has |
| `TopologyDiff.Listener.RegionNop` | qemu/mem.c:653 | a range is announced as unchanged only if the listener has it |
| `TopologyDiff.Listener.RegionAdd` | qemu/mem.c:690 | a range is added only when it overlaps nothing that the listener still has |
| `TopologyDiff.UpdatePass` | qemu/mem.c:613-696 | the first pass leaves the common ranges, the second makes them the new view and announces it in order |
| `TopologyDiff.UpdateTopology` | qemu/mem.c:590-596 | a listener that knew the old view knows exactly the new one, reaches at every address what the new view reaches, and has been told of all its ranges in order |
| `RadixMap.FindLocal` | qemu/mem.c:42-47 | what a walk finds depends only on the nodes below its entry |
| `RadixMap.AllocOk` | qemu/mem.c:545-563 | a new node belongs to one entry and leads every page to the unassigned section |
| `RadixMap.SetChild` | qemu/mem.c:536-537 | a recursive call that sets one slot's pages extends the part of the node that is set |
| `RadixMap.SetLeaf` | qemu/mem.c:531-535 | a leaf over an aligned step sets exactly the pages of its slot |
| `RadixMap.ChildOpen` | qemu/mem.c:536-537 | a slot that is set in part is no leaf, so the recursion follows a node and never a section number |
| `RadixMap.SlotCost` | qemu/mem.c:502-503 | the nodes of the slots already set and of the next one stay within the level's allowance |
| `RadixMap.PhysPageMap.constructor` | qemu/mem.c:182 | the empty map has no node |
| `RadixMap.PhysPageMap.Reserve` | qemu/mem.c:508-515 | there is room for that many nodes afterwards; the room grows only if there was not, and then at least doubles |
| `RadixMap.PhysPageMap.AllocAt` | qemu/mem.c:524-526 | an open entry gets a node of its own and no other entry changes |
| `RadixMap.PhysPageMap.SetSlot` | qemu/mem.c:530-540 | one iteration sets the pages of one slot and counts its nodes |
| `RadixMap.PhysPageMap.SetSlots` | qemu/mem.c:530-540 | the loop sets all pages of the range that lie in the node and leaves index and count at the rest |
| `RadixMap.PhysPageMap.SetLevel` | qemu/mem.c:517-541 | the recursive function sets exactly the pages of its range, changes no node outside its subtree and allocates no more than its bound |
| `RadixMap.PhysPageMap.SetPages` | qemu/mem.c:498-506 | afterwards exactly the pages of the range lead to the new section and all others where they led; at most 2 * levels - 1 nodes are used, so the reserved 3 * levels suffice and the allocation assertions hold |
| `RadixCompact.FindLocalC` | qemu/mem.c:42-47 | with skips of more than one level, a walk still depends only on the nodes below its entry |
| `RadixCompact.KeptCompressed` | qemu/mem.c:324-347 | replacing an entry by its only child with added skips keeps every walk that ends in a leaf |
| `RadixCompact.AssignedWalks` | qemu/mem.c:42-47 | a page with a section is reached by a walk that ends in a leaf |
| `RadixCompact.CompactChildren` | qemu/mem.c:311-322 | every child is compacted with its leaf walks kept and nothing left to compress below it, and the count tells whether there is none, exactly one, and which, or more |
| `RadixCompact.Compact` | qemu/mem.c:300-348 | compaction of a subtree keeps all of its leaf walks, touches nothing outside it, keeps the map well-formed with skips, and leaves no node with a single child that could be skipped within three bits |
| `RadixCompact.CompactAll` | qemu/mem.c:287-294 | every page whose walk ended in a leaf, so every assigned page, leads to the same section as before, any other page to the unassigned section or to one to which some page led before, and nothing is left to compress |
| `RadixCompact.LedToChild` | qemu/mem.c:324-347 | a section to which a walk below the only child leads is one to which a page of the node led, so the walk of a compressed entry invents none |
| `RadixCompact.SqueezedOpen` | qemu/mem.c:324-334 | an entry that is not compressed has a node with no child, several, or one whose skip is too large |
| `RadixCompact.SqueezedCompressed` | qemu/mem.c:336-347 | the compressed entry leaves nothing to compress if there was nothing below the only child |
| `RadixCompact.StrayWalk` | qemu/mem.c:324-347 | page 512 with section 5 and page 0 without one, in two levels: after compression the walk for page 0 ends in section 5 |
| `RadixCompact.SkipsFit` | qemu/mem.c:331-334 | every skip of a compacted map is below 8 |
| `MemDispatch.WholePageFree` | qemu/mem.c:214-217 | the whole pages of a new section are unassigned when they are set |
| `MemDispatch.SubPageFree` | qemu/mem.c:234 | the assertion on the existing section holds: it is a subpage or unassigned |
| `MemDispatch.MultiOk` | qemu/mem.c:214-217 | setting whole pages extends the part of the section that is answered |
| `MemDispatch.FillSubOk` | qemu/mem.c:252-271 | filling part of a subpage extends that part and keeps its neighbours in the page |
| `MemDispatch.Dispatch.constructor` | qemu/mem.c:166-185 | a new dispatch answers no address and has the four fixed sections |
| `MemDispatch.Dispatch.SectionAdd` | qemu/mem.c:128-145 | the number handed out is one that no page and no byte of a subpage leads to, and no access is answered differently |
| `MemDispatch.Dispatch.RegisterMultipage` | qemu/mem.c:214-217 | whole pages are answered by the section afterwards |
| `MemDispatch.Dispatch.NewSubpage` | qemu/mem.c:236-241 | an unassigned page gets a table of its own, which changes no answer |
| `MemDispatch.Dispatch.RegisterSubpage` | qemu/mem.c:221-248 | a part of a page is answered by the section afterwards, and the rest of the page as before; it takes one section number, and a second one exactly if the page had no subpage yet |
| `MemDispatch.Dispatch.AddFirst` | qemu/mem.c:195-203 | the part before the first page boundary is answered, and what is left starts at a boundary |
| `MemDispatch.Dispatch.AddNext` | qemu/mem.c:204-218 | each further part is whole pages or a rest within one page; the branch for a start inside a page is never taken |
| `MemDispatch.Dispatch.MemAdd` | qemu/mem.c:187-219 | for every alignment and size, the head, body and tail together are the section: exactly its addresses are added, with their offsets, for exactly as many section numbers as there are parts and new subpages |
| `MemDispatch.FirstPage` | qemu/mem.c:226-243 | along a sorted view, the first page of a range has a subpage already if and only if the range before it reaches into that page |
| `MemDispatch.RangeCost` | qemu/mem.c:187-219 | so what a range takes up can be read off the view alone |
| `MemDispatch.RangeAtMostFive` | qemu/mem.c:187-248 | no range takes up more than five section numbers, whatever its alignment and size |
| `MemDispatch.AlwaysCovered` | qemu/mem.c:187-219 | before compaction each page leads to a section whose range includes the address asked for |
| `MemDispatch.StrayNotCovered` | qemu/mem.c:187-219 | the section of another page does not, so comparing range and address finds every stray walk |
| `MemDispatch.Dispatch.AddView` | qemu/mem.c:432-447 | the dispatch built range by range answers as the flat view does, and takes up exactly the section numbers counted along the view |
| `MemoryPipeline.BuildDispatch` | qemu/mem.c:590-713 | render and dispatch together: the dispatch table answers every 64-bit address as the region tree does, for exactly the trees whose view needs no more section numbers than the assertion at qemu/mem.c:134 allows |
| `MemoryPipeline.SmallViewsFit` | qemu/mem.c:134 | so the assertion holds for every view of at most 818 ranges |
| `MemoryPipeline.CommitDispatch` | qemu/mem.c:273-285 | compaction on commit changes the answer of no address whose walk ends in a leaf, so of none that has one; with the comparison of section range and address it changes the answer of no address at all |
| `MemoryPipeline.AllChecked` | qemu/mem.c:273-285 | if every page keeps its section, or had none and now has that of another page, the compared answers are the same |
| `MemoryPipeline.RebuildDispatch` | qemu/mem.c:565-611 | from the tree to the committed table: wherever the tree maps something the table reaches it, and with the comparison of section range and address the table answers every 64-bit address as the tree does, unmapped ones included |
| `Virtqueues.TakenOk` | qemu/vhost-net/kernel-virtio-net.c:1104-1116 | taking a chain off the free list keeps free descriptors and chains in flight a partition of the table |
| `Virtqueues.GivenOk` | qemu/vhost-net/vhost-net-kernel.md:1743-1778 | giving a chain back keeps that partition and the threading of the free list |
| `Virtqueues.InFlightBound` | qemu/vhost-net/kernel-virtio-net.c:1042-1052 | there are never more buffers in flight than descriptors that are not free |
| `Virtqueues.DeviceSees` | qemu/vhost-net/kernel-virtio-net.c:1054-1102 | a device that follows descriptors from the head of a buffer in flight, through the address of an indirect table if there is one, finds exactly the segments of the request, in order and with their directions |
| `Virtqueues.SlotOfWrapped` | qemu/vhost-net/kernel-virtio-net.c:1122 | the ring slot computed from the 16-bit index is that of the unbounded count |
| `Virtqueues.RingPut` | qemu/vhost-net/kernel-virtio-net.c:1118-1132 | the ring holds the last heads made available |
| `Virtqueues.UnconsumedIntact` | qemu/vhost-net/kernel-virtio-net.c:1118-1132 | for a device that returns no more buffers than it has consumed entries, no unconsumed entry is overwritten |
| `Virtqueues.IntactIff` | qemu/vhost-net/kernel-virtio-net.c:1118-1132 | all unconsumed entries are still in their slots if and only if the driver is at most one ring ahead of the device |
| `Virtqueues.EarlyReturnLosesEntry` | qemu/vhost-net/kernel-virtio-net.c:1118-1132 | a device that returns the second of two buffers before consuming the first loses the first: the calls Add, Add, GetBuf and Add on a new queue lead to a state in which the slot of a buffer in flight has been overwritten |
| `Virtqueues.HistoryAdd` | qemu/vhost-net/kernel-virtio-net.c:1113-1133 | an added buffer is in flight under its serial number |
| `Virtqueues.HistoryReturn` | qemu/vhost-net/kernel-virtio-net.c:879-882 | a returned buffer leaves flight, once |
| `Virtqueues.WriteSegment` | qemu/vhost-net/kernel-virtio-net.c:1057-1068 | one descriptor more of the chain carries its segment, and the next index is the link that was there |
| `Virtqueues.WriteChain` | qemu/vhost-net/kernel-virtio-net.c:1054-1088 | the descriptors of the chain carry the segments in order, readable before writable, only the last without NEXT, and no link and no other descriptor changes |
| `Virtqueues.Virtqueue.constructor` | qemu/vhost-net/kernel-virtio-net.c:710-761 | the new queue satisfies the invariant with all descriptors free |
| `Virtqueues.Virtqueue.AllocIndirect` | qemu/vhost-net/kernel-virtio-net.c:1147-1167 | a fresh table is one chain |
| `Virtqueues.Virtqueue.Publish` | qemu/vhost-net/kernel-virtio-net.c:1113-1133 | token, ring entry, index and count of additions are written so that the ring stays the record of the last heads |
| `Virtqueues.Virtqueue.FillTable` | qemu/vhost-net/kernel-virtio-net.c:1024-1102 | one ring descriptor, which the device only reads, refers by address and length to a table in which the device finds the segments |
| `Virtqueues.Virtqueue.FillRing` | qemu/vhost-net/kernel-virtio-net.c:1035-1088 | the first free descriptors show the device the segments |
| `Virtqueues.Virtqueue.Commit` | qemu/vhost-net/kernel-virtio-net.c:1104-1133 | the filled chain becomes a buffer in flight and the queue's invariant holds again |
| `Virtqueues.Virtqueue.Add` | qemu/vhost-net/kernel-virtio-net.c:980-1145 | on success the segments are in flight under a head that was not, in descriptors of the ring or in a table at the address given, no other buffer changes and the free count falls by what is used; on a broken or full queue nothing changes; the device is notified from here exactly on a full queue with something to send and before the count of additions passes 16 bits |
| `Virtqueues.Virtqueue.DetachBuf` | qemu/vhost-net/vhost-net-kernel.md:1743-1778 | following NEXT from the head finds the whole chain, which returns to the front of the free list with exactly its number of descriptors |
| `Virtqueues.Virtqueue.ReturnBuf` | qemu/vhost-net/kernel-virtio-net.c:879-889 | a buffer in flight is recorded as returned, for the first time, and its chain is free again |
| `Virtqueues.Virtqueue.GetBuf` | qemu/vhost-net/kernel-virtio-net.c:843-897 | returns a token if and only if the queue is not broken, the device's 16-bit index differs from the number of buffers returned so far, and the next used entry names a buffer in flight; then it is that buffer's token with the length written, never one buffer twice, and its descriptors are free again; asks for the next interrupt unless these are off; an identifier that is no head in flight breaks the queue and changes nothing else |
| `MemblockRegions.SumCounts` | mm/memblock.c:21-26 | the total size of a list is the number of addresses that it covers |
| `MemblockRegions.FilledCount` | mm/memblock.c:784-836 | the inserting pass adds exactly as many regions as the counting pass found |
| `MemblockRegions.FilledFlat` | mm/memblock.c:784-826 | filling the gaps keeps the list sorted and disjoint |
| `MemblockRegions.FilledTag` | mm/memblock.c:784-826 | covered addresses keep node and flags, and the gaps of the range get the new ones |
| `MemblockRegions.JoinOk` | mm/memblock.md:248-271 | joining two mergeable regions changes no address, no node, no flag and no total |
| `MemblockRegions.Canonical` | mm/memblock.md:248-271 | a merged list is the only one of its meaning: two of them that say the same of every address are equal |
| `MemblockTypes.CapSize` | mm/memblock.c:687-692 | the range is kept whole if it ends within the address space and otherwise cut to end exactly there |
| `MemblockTypes.MemblockType.constructor` | mm/memblock.c:40-57 | the initial list is the empty dummy entry, with room for 128 regions |
| `MemblockTypes.MemblockType.MakeRoom` | mm/memblock.c:828-836 | there is room for that many regions more, and the array has grown, at least to the double, only if there was not |
| `MemblockTypes.MemblockType.InsertRegion` | mm/memblock.c:856-875 | insertion in place, with the total |
| `MemblockTypes.MemblockType.AddPass` | mm/memblock.c:784-826 | one loop serves both passes: the first counts the gaps, the second fills them |
| `MemblockTypes.MemblockType.MergeRegions` | mm/memblock.md:248-271 | no two neighbours are mergeable afterwards, and every address keeps its node and flags |
| `MemblockTypes.MemblockType.AddRange` | mm/memblock.c:764-842 | the list covers the union, only new addresses get the new node and flags, the total grows by exactly their number, no two neighbours are mergeable, and the array has room for every insertion and doubles only if it had not |
| `MemblockTypes.MemblockType.SplitRegion` | mm/memblock.c:654-675 | both halves keep node and flags, and the total stays |
| `MemblockTypes.MemblockType.IsolateRange` | mm/memblock.c:627-685 | at most two regions more, every address as before, and the result is the index interval of exactly the regions inside the range; in a merged list only neighbours that meet at an end of the range are mergeable |
| `MemblockTypes.MemblockType.RemoveRegion` | mm/memblock.md:333-349 | one region goes; an emptied list is the dummy entry |
| `MemblockTypes.CutTag` | mm/memblock.c:617-622 | dropping the isolated regions uncovers exactly the range |
| `MemblockTypes.CutMerged` | mm/memblock.c:617-622 | and leaves no two mergeable neighbours |
| `MemblockTypes.MemblockType.RemoveRange` | mm/memblock.c:611-624 | exactly the range is uncovered, all else keeps node and flags, the total is the number of addresses left, and a merged list stays merged |
| `MemblockAlloc.GapsExact` | mm/memblock.c:784-826 | the gaps of a range are ascending and together exactly its uncovered addresses |
| `MemblockAlloc.FreeExact` | mm/memblock.c:405-443 | the ranges iterated over are exactly memory without reservations |
| `MemblockAlloc.OfNodeIn` | mm/memblock.c:405-410 | selecting the regions of a node selects exactly the addresses whose region is on that node |
| `MemblockAlloc.InOneGap` | mm/memblock.c:405-443 | addresses in a row that are not reserved lie in one gap between reservations |
| `MemblockAlloc.InOneRegion` | mm/memblock.c:405-443 | addresses in a row with the same node and flags lie in one region of a merged list |
| `MemblockAlloc.BlockInRange` | mm/memblock.c:405-443 | so contiguous free memory with one node and flags lies in one of the ranges iterated over |
| `MemblockAlloc.RangeIsFree` | mm/memblock.c:405-443 | and every block in such a range is free memory with one node and flags |
| `MemblockAlloc.RoundDown` | mm/memblock.c:396 | the greatest multiple not above the argument |
| `MemblockAlloc.CandidateFits` | mm/memblock.c:389-400 | a candidate that passes the test lies in its free range if and only if the request is not empty or the range meets the window |
| `MemblockAlloc.EmptyRequestEscapes` | mm/memblock.c:389-400 | a request for 0 bytes whose candidate is in no free range |
| `MemblockAlloc.HighestInRange` | mm/memblock.c:389-400 | within one free range the candidate is the highest block that fits, and the test fails only if none does |
| `MemblockAlloc.SearchExact` | mm/memblock.c:378-403 | what the search says of ranges holds of addresses: none fits if and only if no aligned block in the window is free memory of the node with one node and flags, and the block found is the highest such one |
| `MemblockAlloc.FindTopDown` | mm/memblock.c:378-403 | an aligned address in the window; for a request that is not empty the highest block that fits into a free range, and 0 exactly when none fits; for an empty one the candidate of the last range that passes the test |
| `MemblockAlloc.LiveAdd` | mm/memblock.c:337-346 | a block of free memory overlaps no live block |
| `MemblockAlloc.LiveRemove` | mm/memblock.md:521-534 | freeing a range leaves all live blocks reserved that it does not touch |
| `MemblockAlloc.LiveGrow` | mm/memblock.c:112-115 | more memory and more reservations leave live blocks reserved and apart |
| `MemblockAlloc.LiveCut` | mm/memblock.c:584-608 | when memory and reservations are cut at one address, the live blocks below it stay reserved and apart |
| `MemblockAlloc.Memblock.AllocRange` | mm/memblock.c:328-375 | the block found is the highest aligned run of addresses in the window that are free memory of the node with one node and flags, and 0 means that there is none, however memory was added; it is never in the first page and is reserved now; no two live blocks ever overlap; a failure changes nothing |
| `MemblockAlloc.Memblock.Free` | mm/memblock.md:521-534 | exactly the range is no longer reserved, the other reservations keep node and flags; freeing a live block undoes its allocation and no other |
| `MemblockAlloc.Memblock.AddMemory` | mm/memblock.c:758-762 | exactly the capped range is added to memory, new addresses with node `MAX_NUMNODES` and no flags, in a list that stays merged, and live blocks stay apart |
| `MemblockAlloc.Memblock.Reserve` | mm/memblock.c:112-115 | exactly the capped range is reserved besides, in a list that stays merged, and live blocks stay apart |
| `MemblockAlloc.LowestKept` | mm/memblock.c:592-601 | the cut that the loop finds has exactly the limit's number of addresses below it |
| `MemblockAlloc.Memblock.EnforceLimit` | mm/memblock.c:584-608 | the memory left is the lowest part and its size is the smaller of limit and total; the cut is right behind the last address left, or the end of the address space if the limit exceeds the total; reservations above the same cut go as well; exactly the live blocks that end below it stay live, reserved and apart, so allocation can go on |
| `KvmSlots.WholePagesExact` | qemu/kvm.c:529-542 | the adjusted range is the union of exactly the whole pages inside the section |
| `KvmSlots.CarveSame` | qemu/kvm.c:571-635 | outside the range the old mapping survives in the prefix and suffix slots |
| `KvmSlots.SlotTable.LookupOverlapping` | qemu/kvm.c:557-560 | finds the lowest overlapping slot, or says that there is none |
| `KvmSlots.SlotTable.AllocSlot` | qemu/kvm.c:654-661 | an unused slot |
| `KvmSlots.SlotTable.Register` | qemu/kvm.c:577-580 | one slot changes and slots stay disjoint and aligned |
| `KvmSlots.RoomForParts` | qemu/kvm.c:612-635 | if the table has as many slots as the whole call registers, each turn of the loop finds the slots that it needs |
| `KvmSlots.SlotTable.RegisterPart` | qemu/kvm.c:612-635 | a part outside the range goes into an unused slot and leaves the range alone |
| `KvmSlots.SlotTable.Carve` | qemu/kvm.c:571-635 | one overlapping slot fewer, the mapping outside the range unchanged; the slot given up serves one part, so an unused one is needed only for a second part |
| `KvmSlots.SlotTable.RegisterAgain` | qemu/kvm.c:583-610 | the branch for kernels that cannot join slots puts the slot back, perhaps under another number |
| `KvmSlots.SlotTable.SetRange` | qemu/kvm.c:554-651 | the loop ends, with the range set to the new memory or cleared and everything else kept; the number of unused slots afterwards is accounted for exactly |
| `KvmSlots.SlotTable.SetPhysMem` | qemu/kvm.c:516-652 | inside the whole pages of the section the table maps exactly the section's memory (or nothing), outside what it mapped before, for every table that has the slots the call registers; a section that is present already and I/O regions need none; with the workaround for old kernels the slots that follow each other from the start keep what they had |
| `KvmSlots.WorkaroundExact` | qemu/kvm.c:583-610 | with that workaround, the section ends up with its own memory everywhere if and only if the slots kept had that memory already |
| `KvmSlots.WorkaroundKeepsOld` | qemu/kvm.c:583-610 | a table and a section for which they do not |
| `VhostRegions.JoinedBacks` | qemu/vhost-user-blk.c:805-810 | the join of two adjoining regions maps exactly what both mapped, with the same offset |
| `VhostRegions.JoinedAdjoins` | qemu/vhost-user-blk.c:785-797 | what continues the join continues one of the two |
| `VhostRegions.AssignKeep` | qemu/vhost-user-blk.c:785-797 | a region that is not merged is copied down |
| `VhostRegions.AssignFirst` | qemu/vhost-user-blk.c:799-810 | the first merge grows an entry in place |
| `VhostRegions.AssignAgain` | qemu/vhost-user-blk.c:799-810 | a later merge grows the same entry and frees its own |
| `VhostRegions.AssignDone` | qemu/vhost-user-blk.c:813-824 | what is left is the old mapping and the new region |
| `VhostRegions.AssignedMerges` | qemu/vhost-user-blk.c:785-824 | the table grows if and only if the new region joins none of the old ones; if the backend allows every merge, a table in which no region continues another stays one |
| `VhostRegions.VhostMemory.Look` | qemu/vhost-user-blk.c:768-811 | one iteration copies a region down and merges it exactly if it adjoins the range in guest and user space and the backend allows it |
| `VhostRegions.VhostMemory.AssignMemory` | qemu/vhost-user-blk.c:762-825 | for every merge rule of the backend, the table is the one that merging region by region gives; it maps exactly what it mapped and the new region, its regions stay disjoint, it grows by at most one, and does not grow if and only if a region joins the new one |
| `Pageblock.SameField` | mm/buddy.c:1129-1133 | two pages share a field if and only if they are in the same block of their section |
| `Pageblock.FieldBits` | mm/buddy.c:1071-1075 | the shifted mask covers exactly the bits of the field in the four bits of its block, which are counted from the top of the word |
| `Pageblock.SameMigrateType` | mm/buddy.c:1064-1075 | two pages share the word and the mask of their migrate type if and only if they are in the same block of their section |
| `Pageblock.FieldsDisjoint` | mm/buddy.c:1073-1075 | the shifted masks of different fields share no bit |
| `Pageblock.OwnFieldOnly` | mm/buddy.c:1080 | a write gives its own field the new value and no other field |
| `Pageblock.FlagsWithinMask` | mm/buddy.c:1073-1080 | writes leave all bits outside the mask alone if and only if the flags are within the mask, which the code does not check |
| `Pageblock.NeighbourOverwritten` | mm/buddy.c:1073-1080 | flags of 8 for a three-bit field set the skip bit of the block beside it |
| `Pageblock.WritesLinearize` | mm/buddy.c:1053-1085 | in every run of any number of writers, with any masks and flags, each word is what the successful writes make of it one after the other |
| `Pageblock.EachCallWritesOnce` | mm/buddy.c:1053-1085 | in every run, finished calls and successful writes correspond one to one, each write with the arguments with which its call was started; no call that is not finished has written |
| `Pageblock.FinishesAlone` | mm/buddy.c:1077-1084 | a call that looks at the word and then finds no other write to it before its compare-and-swap succeeds and is done, also after failures |
| `Pageblock.FieldHoldsLast` | mm/buddy.c:1080 | writes that keep within their fields leave each field with the value of the last write to it |
| `Pageblock.NoUpdateLost` | mm/buddy.c:1053-1085 | in every such run whose successful writes kept within their fields, each field of each word holds the value of the last successful write to it |
| `Pageblock.FailureMeansProgress` | mm/buddy.c:1078-1084 | a compare-and-swap fails only if a write of another call to that word has succeeded since the writer read it |

## Left out

- Timer slack, migration between CPUs, locks and interrupts, timer statistics and waking idle CPUs (timer/timer_list.c:119, 184-212, 237-251).
- Wrap-around of jiffies outside `TimerWord`: the other timer modules use unbounded times.
- TimerBase.TvecBase.RunTimers: callbacks arm no timer that is already due unless they leave alone a timer that is not, because otherwise the loop need not end (`TimerRun.EndlessRounds`); callbacks that do anything at all are the events between two `RunFirst` steps of `TimerRun`.
- TimerBase.TvecBase.RunScript: the same holds of it and of `TimerBase.TvecBase.RunWork`.
- TimerFifo.FirstInFirstOut: speaks of timers in one bucket; `TimerOrder` has those with the same expiry in different buckets.
- `flatrange_equal` is not part of the source; `TopologyDiff.Equal` compares all but the log mask, as the comment at qemu/mem.c:649 says.
- FlatViews.GenerateTopology: `flatview_simplify`, which joins adjacent ranges, is called at qemu/mem.c:710 but is not part of the source, and so not of the model.
- Dirty-log start and stop calls, delayed logging, ioeventfds, reference counts and read-copy-update are not part of this model.
- Region trees are finite values: an alias that leads back to a container of itself has no model, and the container's change of `addr` and `container` is not shown.
- Subregions.Container.AddSubregion: the overlap warning loop (qemu/virtio-mem.c:147-167) has no effect and is not modelled.
- RadixMap.PhysPageMap.SetPages: requires that the pages of the range are unassigned, because writing into part of a larger leaf would follow a section number as a node index; `MemDispatch` proves it for its caller.
- RadixCompact.CompactAll: pages whose walk ended in no node may lead to the section of another page afterwards (`RadixCompact.StrayWalk`).
- `phys_page_find` is not part of the source; `MemDispatch.Checked` is what a lookup answers that compares the section's range with the address, and `MemDispatch.Resolve` what one answers that does not.
- `register_multipage` is not part of the source; `MemDispatch.Dispatch.RegisterMultipage` is what its call at qemu/mem.c:214-217 needs.
- MemoryPipeline.BuildDispatch: the number of map levels is at most 64, where the source has 6 for 64-bit addresses; with `ok` false the source would stop at the assertion on section numbers.
- `BAD_RING` is not part of the source; its model follows its uses at qemu/vhost-net/kernel-virtio-net.c:870-877 and marks the queue broken.
- Virtqueues.Virtqueue.Add: DMA mapping failures are not modelled, because their common exit `unmap_release` is not part of the source; what a kick does is not part of it either; scatter lists are one list of readable and one of writable segments, and a null token is excluded, because it could not be told from a free entry.
- Memory barriers are not modelled, neither in the virtqueue nor in `Pageblock`.
- Virtqueues.Virtqueue.constructor: that the number of descriptors is a power of two is stated as being a divisor of 65536.
- `memblock_double_array` always succeeds and doubles the capacity; its own reservation is not modelled.
- MemblockAlloc.Memblock.AllocRange: the bottom-up branch is empty in the source, and `__next_mem_range_rev`, which is not part of the source, is the list of free ranges of the node.
- MemblockAlloc.RoundDown: rounds to multiples of any alignment, where the kernel's `round_down` is a mask that does so for powers of two only.
- KvmSlots.SlotTable.SetPhysMem: slot flags, dirty bitmaps and errors of the ioctl are not modelled; running out of slots is excluded, because `kvm_alloc_slot` then returns no slot at all.
- `kvm_lookup_overlapping_slot` and `kvm_get_free_slot` are not part of the source; their models follow their uses.
- VhostRegions.VhostMemory.AssignMemory: removal of overlapping regions, which comes first in the source, is its precondition; addresses do not wrap.
- Device realisation, interrupt set-up, zone lists, the rest of the page allocator and all other files: only the operations with the most state and branching are modelled.

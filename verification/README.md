# An incremental generational garbage collector, modelled in Dafny

The collector manages objects whose header holds a packed 32-bit mark
word and a fixed number of reference slots. Every object sits on exactly one
intrusive list:

- the transparent list: objects condemned by the last sweep, waiting to be
  finalized and freed;
- white: not yet reached in this cycle;
- silver: refreshed objects without roots, whose fate is still open;
- grey: reached, with slots still to scan;
- one black list per generation: scanned.

A call to `gc()` runs these phases in order:

1. transparent cleanup;
2. promotion of each generation's black list into the next one;
3. refresh of a generation's black list into grey (objects with roots) or
   silver (objects without);
4. the grey mark loop;
5. silver resolution, which searches the black lists, oldest first, for a
   referrer;
6. the sweep, which turns the white list transparent;
7. a second transparent cleanup.

Work is counted in `cycle_threshold`. Each time the count reaches the pause
threshold, the call asks whether `max_pause` has elapsed, and if it has, the
call returns with the lists as they are. The next call continues from there.

The test harness is a Ruby script. It mirrors every mutator call on plain
objects, each holding a root count and a slot hash. It predicts the
survivors of a final full collection by a worklist search from the rooted
objects. The C driver then checks two things: that the survivor count
matches the prediction, and that survivors plus collected objects add up to
every allocation.

The project has eight modules:

- **`MarkWord`** (`mark_word.dfy`): the mark-word macros on a `uint32` and
  their record view `Mark(roots, color, gen)`, with the codec round trips.
- **`Lists`** (`lists.dfy`): the list engine, with lists as sequences whose
  head is index 0.
- **`Reach`** (`reach.dfy`): reachability over the harness's view of the
  heap, and the harness's own operations, including its survivor worklist.
- **`Heap`** (`heap.dfy`): the collector state.
  - `Gc` holds the objects and the lists. Each object's `link` says which
    list holds it, which is what the `gc_prev` back-pointer encodes.
  - `Inv` is the heap invariant. The lists have no duplicates and agree with
    the links. Live slots point only at live objects. No black object points
    at a white one.
  - `Evolves` says a step frees only unreachable objects and logs each
    finalization.
- **`Collector`** (`collector.dfy`): `gc()` and the default object callbacks,
  one function per phase. Each phase returns `Run(st, stats, paused)`.
- **`Mutator`** (`mutator.dfy`): `gc_init`, `gc_destroy`, `gc_alloc`,
  `gc_add_root`, `gc_remove_root`, `gc_set_ref` with its write barrier, and
  `gc_contains`. Each call is connected to the harness's mirror of it.
- **`Survival`** (`survival.dfy`): safety and completeness of a collection,
  and its agreement with the harness's survivor count.
- **`Closing`** (`closing.dfy`): the harness's closing sequence `end()`. It
  holds a script on which that sequence keeps floating garbage, and a
  corrected sequence that keeps exactly what the oracle predicts, provided
  the forced call's cleanup and generation loop do not pause.

The clock is a parameter. `Clock` answers whether generation `i` is due for
promotion or refresh, and what the k-th pause-time comparison of the
current call finds. Finalization is recorded in the `finalized` log instead
of calling a class callback.

## Model

| member | source | states |
|---|---|---|
| MarkWord.Decode | src/gc.c:94-114 | every 32-bit word reads back as a mark whose root count is below 2^24 and whose generation is below 64 |
| MarkWord.DecodeEncode | src/gc.c:94-101 | packing a representable mark and reading it back returns the same root count, colour and generation |
| MarkWord.EncodeDecode | src/gc.c:94-101 | every 32-bit word is the packing of the record it decodes to: the three fields cover the word |
| MarkWord.Split | src/gc.c:94-112 | a word is its root count times 256, plus its colour bits, plus its generation field, with each part in range |
| MarkWord.Compose | src/gc.c:94 | packing fields in range yields a word from which the count, colour and generation macros recover each field |
| MarkWord.ColorTests | src/gc.c:100-105 | each colour test macro holds exactly when the decoded colour is that colour |
| MarkWord.Recolored | src/gc.c:107-110 | replacing the two colour bits changes only the decoded colour |
| MarkWord.ColorSetters | src/gc.c:107-110 | marking white, grey, black or silver sets that colour and keeps the root count and generation, whatever the previous colour |
| MarkWord.GenSetKeeps | src/gc.c:98 | setting the generation changes only the generation and keeps the roots and colour |
| MarkWord.IncRootKeeps | src/gc.c:113 | below the top of the 24-bit field, incrementing adds one root and keeps the colour and generation byte |
| MarkWord.IncRootWraps | src/gc.c:113 | at 2^24 - 1 roots, an increment wraps the count to zero and keeps the low byte |
| MarkWord.DecRootKeeps | src/gc.c:114 | with at least one root, decrementing removes one root and keeps the colour and generation byte |
| MarkWord.WithRoot | src/gc.c:113 | the increment, read back through the codec, is one more root on the record with colour and generation unchanged |
| MarkWord.WithoutRoot | src/gc.c:114 | the decrement, read back through the codec, is one root fewer on the record |
| MarkWord.Greyed | src/gc.c:108 | marking grey through the word turns the record grey and keeps its roots and generation |
| MarkWord.PaleMark | src/gc.c:106 | the silver-or-white test on the packed word holds exactly for white and silver records |
| MarkWord.BlackMark | src/gc.c:104 | the black test on the packed word holds exactly for black records |
| MarkWord.HasRoots | src/gc.c:112 | a nonzero root-count field means exactly that the record has roots |
| Lists.Remove | src/gc.c:126-130 | unlinking takes out one occurrence and keeps every other element, as a multiset; the list shrinks by one when the object was on it |
| Lists.RemoveNoDup | src/gc.c:126-130 | unlinking from a duplicate-free list leaves a duplicate-free list holding every other element and not the removed one |
| Lists.AddNoDup | src/gc.c:117-123 | pushing an object that is not on a duplicate-free list (`Lists.Add`, gc_list_add) keeps it duplicate-free |
| Lists.RemoveAfterAdd | src/gc.c:117-130 | unlinking an object just pushed on a list restores the list |
| Lists.MoveAllNoDup | src/gc.c:139-150 | splicing two disjoint duplicate-free lists yields a duplicate-free list holding exactly the elements of both |
| Reach.StoreReach | test/gctest.rb:40-50 | after a store into a reachable object, the object stays reachable and the stored target becomes reachable |
| Reach.RerootReach | test/gctest.rb:52-66 | raising an object's root count only adds reachable objects, lowering it only removes some, and a rooted object is reachable |
| Reach.AddUnreached | test/gctest.rb:31-38 | a new object without roots, which nothing refers to, changes no object's reachability |
| Reach.ClosedSetHoldsReachable | test/gctest.rb:183-204 | reachability is contained in every set that holds the rooted objects and is closed under slot references |
| Reach.ReachStep | test/gctest.rb:192-200 | an object referred to by a reachable object is reachable |
| Reach.ReachMono | test/gctest.rb:183-204 | keeping every object's slots and roots, and adding objects or roots, keeps every reachable object reachable |
| Reach.RestrictReach | test/gctest.rb:202 | dropping only unreachable objects leaves reachability unchanged in both directions |
| Reach.SetSlot | test/gctest.rb:40-50 | an index at or past the slot count is refused; otherwise only slot `i` changes, to the new target or to empty |
| Reach.DropRoot | test/gctest.rb:60-66 | decrementing a zero root count is refused; otherwise exactly one root is removed and the slots are kept |
| Reach.RootedIds | test/gctest.rb:184-189 | the seeding loop collects each rooted object once, and nothing else |
| Reach.PushReferents | test/gctest.rb:193-200 | one pop adds every referent not yet a survivor to both the survivor list and the stack, adds only reachable objects, and keeps both lists duplicate-free |
| Reach.Survivors | test/gctest.rb:183-204 | the worklist ends with a duplicate-free list holding exactly the reachable objects |
| Heap.LiveReach | src/gc.c:233-243 | under the heap invariant, every reachable object is off the transparent list |
| Heap.EvolvesReach | src/gc.c:225-369 | a step that only frees unreachable objects leaves reachability unchanged in both directions |
| Heap.MoveLists | src/gc.c:132-136 | the moved object heads its new list, leaves its old list, which shrinks by one, and no other list changes |
| Heap.MoveInv | src/gc.c:132-136 | a move that respects the colour and black-to-white rules keeps the heap invariant, the roots and the slots |
| Heap.FreeInv | src/gc.c:234-240 | freeing the transparent head keeps the invariant, frees an unreachable object and shrinks the heap by one |
| Heap.TransparentUnreached | src/gc.c:233-243 | no object on the transparent list is reachable |
| Heap.SweepInv | src/gc.c:344-348 | the sweep keeps the invariant, the roots and the slots, once the grey and silver lists are empty |
| Heap.SweepUnreachable | src/gc.c:344-348 | when the grey and silver lists are empty, no white object is reachable |
| Heap.AllLocs | src/gc.c:40-46 | the lists are the transparent, white, silver and grey lists, plus one black list per generation |
| Heap.Empty | src/gc.c:55-66 | the starting state meets the invariant, with no objects and every list empty |
| Collector.Check | src/gc.c:199-215 | the call pauses exactly when the work count has reached the pause threshold and the clock says max_pause has elapsed; otherwise a count at the threshold is banked into the object count and reset |
| Collector.Relink | src/gc.c:132-136 | moving an object, with its new mark, keeps the heap invariant, the roots and slots, and every other object and list |
| Collector.Cleanup | src/gc.c:233-243 | the cleanup frees only unreachable objects, counts every finalization in cycle_collected, leaves other lists alone, and empties the transparent list unless it pauses |
| Collector.Promote | src/gc.c:253-266 | promotion moves generation `i`'s objects into generation `i + 1` only, loses none, and empties generation `i` unless it pauses |
| Collector.Refresh | src/gc.c:269-288 | refresh touches only generation `i` and the grey and silver lists, and empties generation `i` unless it pauses |
| Collector.RefreshOne | src/gc.c:272-280 | a black object with roots becomes grey and one without becomes silver; nothing else changes |
| Collector.Generation | src/gc.c:247-290 | a generation due for work ends with an empty black list unless the call pauses; roots and slots are kept |
| Collector.GenerationKeeps | src/gc.c:247-290 | a round of the generation loop leaves the black lists of younger generations as they were |
| Collector.Generations | src/gc.c:247-290 | the loop leaves the black lists of generations below `i` alone; when it does not pause and every generation from `i` on is due, all their black lists end empty |
| Collector.PendingDrops | src/gc.c:378-381 | greying a white or silver object lowers by one the number of objects that can still turn grey |
| Collector.MarkRef | src/gc.c:377-385 | a white or silver referent turns grey and nothing else changes colour; it ends not pale |
| Collector.MarkRefs | src/gc.c:377-386 | after the slot loop, unless it pauses, no referent of the scanned slots is white or silver; progress counts down |
| Collector.MarkBlack | src/gc.c:372-391 | the object ends black in its own generation with no white or silver referent, or the call paused with it still grey; no object becomes pale |
| Collector.Blacken | src/gc.c:388-390 | a grey object with no pale referent moves to the black list of its generation without breaking the invariant |
| Collector.GreyStep | src/gc.c:293-298 | each round of the grey loop strictly lowers the pending work measure, or pauses |
| Collector.GreyLoop | src/gc.c:292-298 | the grey loop ends with an empty grey list unless it pauses, and never makes an object pale |
| Collector.ContainsRef | src/gc.c:394-402 | the search answers true exactly when some slot refers to the target |
| Collector.SearchList | src/gc.c:307-315 | a search of one black list finds only a real referrer on that list; an absent answer means no object on the list refers to the target |
| Collector.SearchGens | src/gc.c:304-319 | the search finds the oldest black referrer's generation, with no referrer in an older generation; an absent answer means no black object refers to the target |
| Collector.Resolve | src/gc.c:320-338 | unless the call pauses, the silver object becomes white exactly when no black object refers to it; the silver list shrinks |
| Collector.ResolveSilver | src/gc.c:301-341 | a round resolves the head of the silver list: white iff no black referrer, unless the call pauses; `Collector.ResolveSilverGen` states the generation a rescued head ends in |
| Collector.Whiten | src/gc.c:333-338 | a silver object with no black referrer becomes white and nothing else changes |
| Collector.Rescue | src/gc.c:320-332 | a silver object with a black referrer is greyed and the grey loop runs; it ends not pale, and unless it pauses the grey list is empty; `Collector.RescueGen` states that it ends in the referrer's generation |
| Collector.Regrey | src/gc.c:321-325 | the rescued object takes the generation of the black list that holds its referrer, turns grey with its root count unchanged, and leaves the silver list; no other object changes |
| Collector.MarkBlackGen | src/gc.c:372-391 | gc_mark_black keeps the generation of the object it scans |
| Collector.GreyLoopShade | src/gc.c:292-298 | the grey loop leaves a grey or black object grey or black, in its own generation |
| Collector.NoGreyBlack | src/gc.c:40-46 | once the grey list is empty, a grey or black object sits on the black list of its own generation |
| Collector.RescueGen | src/gc.c:320-332 | after the found branch the rescued object is of the referrer's generation `g`, and unless the call pauses it is black on generation `g`'s black list |
| Collector.ResolveSilverGen | src/gc.c:301-341 | a silver head that the round does not whiten, and that does not pause, ends black on the black list of the oldest generation holding a black referrer: some black object of that generation refers to it and none of an older one does |
| Collector.SilverLoop | src/gc.c:300-341 | the silver loop ends with an empty silver list unless it pauses, and does not refill the grey list |
| Collector.SweepPhase | src/gc.c:344-351 | the sweep empties the white list and leaves every list other than white and transparent unchanged |
| Collector.SweepPhaseLinks | src/gc.c:344-351 | each white object becomes transparent and every other object keeps its list |
| Collector.OnlyBlack | src/gc.c:353-366 | with the transparent, white, silver and grey lists empty, every object is black |
| Collector.FinalCleanup | src/gc.c:353-368 | the last cleanup frees only unreachable objects; the cycle is full exactly when the call does not pause, and then every object is black |
| Collector.SweepOnward | src/gc.c:344-368 | gc() from the sweep on frees only unreachable objects, counts what it frees, and is full exactly when it does not pause |
| Collector.SilverOnward | src/gc.c:300-368 | gc() from silver resolution on frees only unreachable objects and is full exactly when it does not pause |
| Collector.MarkOnward | src/gc.c:292-368 | gc() from the mark phase on frees only unreachable objects and is full exactly when it does not pause |
| Collector.GenerationsOnward | src/gc.c:245-368 | gc() from the generation loop on frees only unreachable objects and is full exactly when it does not pause |
| Collector.Collect | src/gc.c:225-369 | a gc() call keeps the invariant and never frees a reachable object; cycle_collected is the number of objects it finalized; cycle_full holds exactly when it did not pause, and then every surviving object is black |
| Mutator.Init | src/gc.c:48-67 | a generation count of 0 or above 64 is refused; otherwise every list starts empty under the invariant |
| Mutator.DrainOrder | src/gc.c:80-87 | the teardown visits each list exactly once: transparent, white, silver, grey and every generation's black list |
| Mutator.DrainHolds | src/gc.c:69-77 | draining the given lists yields each object on them exactly once |
| Mutator.Destroy | src/gc.c:79-91 | teardown frees the list heads and the generation table, so what remains is the finalizer log: the objects finalized before, followed by every object still managed, and nothing else |
| Mutator.DrainCovers | src/gc.c:80-87 | the teardown drain meets every managed object exactly once |
| Mutator.DestroyFinalizesAll | src/gc.c:79-91 | the teardown log has no duplicates: no object is finalized twice, and no object freed earlier is finalized again |
| Mutator.DestroyAccounts | src/gc.c:79-91 | after teardown every object ever allocated has been finalized exactly once, and nothing else: freed objects plus survivors make up every allocation |
| Mutator.Alloc | src/gc.c:171-186 | a new object with the next id, empty slots and a zero mark heads the white list; nothing else changes |
| Mutator.AllocInv | src/gc.c:171-186 | allocation keeps the heap invariant |
| Mutator.AllocReach | src/gc.c:171-186 | allocation matches the harness's new object without roots: reachability is unchanged and the new object is unreachable |
| Mutator.AddRoot | src/gc.c:153-161 | one more root, and a white or silver object turns grey and heads the grey list; any other object keeps its list and colour |
| Mutator.AddRootInv | src/gc.c:153-161 | adding a root keeps the heap invariant |
| Mutator.AddRootReach | src/gc.c:153-161 | adding a root matches the harness's count increment: the object becomes reachable and nothing reachable is lost |
| Mutator.RemoveRoot | src/gc.c:164-168 | a positive root count drops by one and nothing else changes; at zero the call does nothing |
| Mutator.RemoveRootInv | src/gc.c:164-168 | removing a root keeps the heap invariant |
| Mutator.RemoveRootReach | src/gc.c:164-168 | removing a root matches the harness's decrement: its refusal leaves the heap alone, and reachability only shrinks |
| Mutator.SetRef | src/gc.c:189-197 | the slot takes the new reference; a black object turns grey and heads the grey list, and any other object keeps its list and mark |
| Mutator.SetRefInv | src/gc.c:189-197 | the store with its write barrier keeps the heap invariant, including no black-to-white reference |
| Mutator.SetRefReach | src/gc.c:189-197 | the store matches the harness's slot store; a reachable holder makes the stored target reachable |
| Mutator.Scan | src/gc.c:472-477 | walking one list finds the object exactly when it is on the list |
| Mutator.Contains | src/gc.c:470-506 | the object is found exactly when it is managed and not transparent |
| Mutator.KeptNamesLive | test/gctest.rb:202 | after the oracle's collection, every name the harness keeps denotes a managed object off the transparent list |
| Survival.GenerationsRecolours | src/gc.c:247-290 | the generation loop keeps roots and slots and shades no new object; an object grey afterwards was grey before or has roots |
| Survival.ForcedMarks | test/gctest.c:125-132 | with every generation forced due, and every grey object reachable, the generation loop leaves only reachable objects grey or black |
| Survival.MarkBlackMarked | src/gc.c:372-391 | blackening a reachable object greys only reachable objects |
| Survival.GreyLoopMarked | src/gc.c:292-298 | the grey loop keeps every grey or black object reachable |
| Survival.WhitenMarked | src/gc.c:333-338 | whitening a silver object keeps every grey or black object reachable |
| Survival.RegreyMarked | src/gc.c:321-325 | a silver object with a reachable black referrer is reachable, so greying it keeps the shaded objects reachable |
| Survival.ResolveMarked | src/gc.c:320-338 | resolving a silver object keeps every grey or black object reachable |
| Survival.SilverLoopMarked | src/gc.c:300-341 | silver resolution keeps every grey or black object reachable |
| Survival.SweepPhaseMarked | src/gc.c:344-351 | the sweep keeps every grey or black object reachable |
| Survival.CleanupMarked | src/gc.c:233-243 | the cleanup keeps every grey, and every grey or black, object reachable |
| Survival.CollectMarked | src/gc.c:225-369 | a gc() call, paused or not, keeps every grey or black object reachable if that held when it started |
| Survival.ForcedCollect | test/gctest.c:125-132 | the forced collection, started with every grey object reachable and not pausing before the mark phase, ends with every grey or black object reachable |
| Survival.CollectComplete | src/gc.c:225-369 | a call that runs to the end, started with every grey or black object reachable, keeps exactly the reachable objects |
| Survival.SurvivorCount | test/gctest.c:145-151 | after such a call the number of survivors equals the harness's predicted count, and survivors plus finalized objects equal the number allocated |
| Survival.BlackReached | test/gctest.rb:176-180 | the harness's black list, as a set, is the set of reachable objects |
| Closing.Finish | test/gctest.c:132-137 | end()'s calls, from the forced one on, free nothing reachable; when the last runs to the end, every survivor is black |
| Closing.Script | test/gctest.rb:114-138 | after `0=1 +0 -0` the one object, with one empty slot, is grey with no roots |
| Closing.FloatingGarbage | test/gctest.c:123-150 | on `0=1 +0 -0` the oracle finds nothing reachable, yet end()'s forced call runs to the end and object 0 survives |
| Closing.FloatingSurvives | src/gc.c:225-369 | a gc() call on a heap whose only object is grey, with no roots and no references, runs to the end and keeps that object |
| Closing.ForcedAfterFull | test/gctest.c:125-132 | the forced call, on a heap whose objects are all black, ends with every grey or black object reachable |
| Closing.FinishComplete | test/gctest.c:134-136 | gc() calls that start with every grey or black object reachable and end with one that runs to the end keep exactly the reachable objects |
| Closing.CorrectedClose | test/gctest.c:123-150 | with a completed cycle before the forced call, and provided the forced call's cleanup and generation loop do not pause, end() keeps exactly the oracle's black list, as many objects as it predicts |

## Left out

- The clock. `get_nanotime`, `max_pause` and the promotion and refresh
  intervals become the `Clock` oracles. The promotion and refresh
  timestamps, `cycle_time` and `cycle_duration` are not kept. Each answer
  is unconstrained: nothing ties the k-th comparison to the ones before
  it, although real time only grows. So the model also admits runs the
  source cannot take, for instance the grey loop carrying on after
  `gc_mark_black` paused, where the next `gc_cycle_check` in C would find
  the time still up. Every result is stated for all clocks, so it holds
  of the source's runs too.
- The per-generation counters `cycle_promoted` and `cycle_refreshed`. Only
  `cycle_threshold`, `cycle_objects`, `cycle_collected` and `cycle_full` are
  kept, as `Stats`.
- `malloc`, `free` and `errno`. Allocation never fails in the model.
  `gc_init`'s refusal is the `Invalid` result.
- Pointers. The `gc_prev`/`gc_next` links are the `link` field plus the
  order within each list's sequence.
- Class callbacks. The default `gc_mark_black` and `gc_contains` are
  modelled. `gc_finalize` appends to the `finalized` log, which the
  harness's counting finalizer also reads.
- Debug printing: `gc_print`, `gc_print_object`, `gc_print_object_list`,
  `gc_object_finalize_debug`, and the harness's statistics output.
- Generating and compiling test programs: gctestgen.rb, the C code that
  GCTest writes out, and src/main.c.
- Ruby hash order. The harness visits a node's slots in hash order; `Reach.Survivors` visits
  them in index order, which changes the order of its result but not its
  contents.
- Mutator.AddRoot: requires the count to stay below 2^24 - 1, because the
  24-bit field then wraps to zero. `MarkWord.IncRootWraps` shows the wrap.
  It also requires a live object, one off the transparent list. gc_add_root
  accepts a transparent object as well, but such an object is condemned
  and may point at objects that the next cleanup frees, so rooting it would
  break the heap invariant.
- Mutator.Alloc: requires fewer than 65536 slots. gc_alloc clears the slots
  with a 16-bit counter compared against the 32-bit `refs_count`; for
  65536 slots or more the counter wraps before reaching the count, so the
  loop never ends and the call never returns.
- Mutator.SetRef: requires a live holder, a live or null target and an index
  below the slot count. The source does not check these, and the harness
  refuses a bad index (`Reach.SetSlot`).
- Survival.CollectComplete: completeness is proved only when every grey or
  black object is reachable at the start. The write barrier and
  `gc_add_root` can shade an object that later becomes unreachable, and the
  collector keeps such floating garbage for a cycle.
  `Survival.ForcedCollect` establishes the hypothesis only when every grey
  object is reachable before the forced call. end() as written does not
  ensure that; see Findings.
- Survival.SurvivorCount: the harness also reports success when its
  survivor count equals the oracle's. The lemma promises that only for a
  call that runs to the end after starting with every grey or black object
  reachable. end() as written can break the hypothesis (Findings), and
  `Closing.CorrectedClose` states the count for the corrected sequence
  when its forced call does not pause before the mark phase.
- Mutator.Destroy: the freed list heads and generation table are not
  returned. Only the finalizer log remains, so no invariant is stated
  after teardown.
- Closing.ForcedAfterFull: requires that the forced call's cleanup and
  generation loop do not pause. Whether they do is up to the clock, which
  is a parameter.
- Closing.CorrectedClose: requires, through `Forced`, that the forced
  call's cleanup and generation loop do not pause. If that call pauses
  part-way through promoting or refreshing, end() puts the last
  generation's refresh interval back to 1e9 (test/gctest.c:133), so black
  garbage that was not refreshed can stay black through the following
  full cycle, and the count can differ from the oracle's again.

## Findings

| source | as written | input that shows it | evidently intended | confidence | as-written member | corrected member |
|---|---|---|---|---|---|---|
| test/gctest.c:123-137 | end() forces promotion and refresh and then runs gc() until cycle_full. An object that gc_add_root or the write barrier greyed is never re-examined by that refresh, so if it has since become unreachable it survives | the script `0=1 +0 -0`: the oracle expects 0 survivors, and the forced call blackens object 0, runs to the end, and leaves 1 | the survivor count equals the oracle's for every script; for example, let a cycle complete, so that no object is grey, before forcing the refresh, and let the forced call's cleanup and generation loop run without pausing | not executed; high | Closing.FloatingGarbage | Closing.CorrectedClose |

# Buffer pool manager of SimpleDB (BasicBufferMgr), modelled in Dafny

The model covers the buffer-pool manager of SimpleDB's server, the class
`BasicBufferMgr`. The pool is a fixed array of buffer slots. Each slot holds
at most one disk block and a pin count. The manager keeps a running counter
of unpinned slots (`numAvailable`), an integer strategy code, and two
auxiliary lists of slot indices:

- `FIFOlist` records arrival order. A pin moves its slot to the tail.
- `LRUlist` records recency. An unpin moves its slot to the tail.

The lifecycle operations are:

- `pin`: reuse the slot that holds the block, or repurpose a victim.
- `pinNew`: always take a victim.
- `unpin`.
- `available`.
- `setStrategy`.

Victim selection (`chooseUnpinnedBuffer`) dispatches on the strategy code to
one of four policies:

- Naive (0): the first unpinned slot.
- FIFO (1): the head of `FIFOlist` only.
- LRU (2): the head of `LRUlist` only.
- Clock (3): a circular scan that starts after the tail of `FIFOlist`.

`pin`, `pinNew`, `unpin` and `flushAll` are `synchronized`; `available` and
`setStrategy` are not (BasicBufferMgr.java:116, 153). The model treats every
operation as one atomic step from an immutable `Pool` value to the next. A step returns
a `Step(reply, pool)`:

- `Pinned(i)`: the slot that was pinned.
- `Exhausted`: Java's `null`, when there is no victim.
- `ListEmpty`: an empty auxiliary list. Java's `get(0)` / `get(size-1)` throws
  here.

Modules:

- `Slots` (slots.dfy): slots, blocks, the unpinned count, and the residency
  lookup `findExistingBuffer`.
- `IndexLists` (index_lists.dfy): the `ArrayList<Integer>` operations used on
  the two lists (`indexOf`, `remove(Object)`, `contains` + `remove` + `add`).
- `Policies` (policies.dfy): the four policies and the dispatch. It also holds
  the Clock scan exactly as written, next to the corrected one.
- `BufferMgr` (buffer_mgr.dfy): the pool, the operations, and the bookkeeping
  invariant `Valid`. `Valid` says:
  - the lists are duplicate-free and in range;
  - the counter equals the number of unpinned slots;
  - no block is resident twice.
- `Scenarios` (scenarios.dfy): concrete runs on pools of three and four slots.
  They fix the tie-break rules of each policy.

`pinNew` does not append to `FIFOlist` (BasicBufferMgr.java:88-96). Under
the FIFO strategy, though, the policy itself removes the victim from the head
of `FIFOlist` (BasicBufferMgr.java:174). `BufferMgr.PinNew` therefore states
that the arrival list is either unchanged or, under FIFO, loses its head.

Source paths below are relative to the repository root.

## Model

| member | source | states |
|---|---|---|
| BufferMgr.Init | sciore-simpledb-maven/server/src/main/java/simpledb/buffer/BasicBufferMgr.java:32-40 | a new pool of n slots has every slot empty and unpinned, counter n, both lists empty, strategy code 0, and satisfies the bookkeeping invariant |
| Slots.CountUnpinned | sciore-simpledb-maven/server/src/main/java/simpledb/buffer/BasicBufferMgr.java:112-118 | the number of available slots is at most the pool size; it is 0 exactly when every slot is pinned and n exactly when none is |
| Slots.CountUnpinnedUpdate | sciore-simpledb-maven/server/src/main/java/simpledb/buffer/BasicBufferMgr.java:69-71 | replacing one slot changes the unpinned count by exactly the change in that slot's availability, which is how the counter is adjusted |
| Slots.Find | sciore-simpledb-maven/server/src/main/java/simpledb/buffer/BasicBufferMgr.java:120-127 | the lookup returns the first slot whose block equals the block asked for, and nothing exactly when no slot holds it |
| Slots.FindIsOnlyHolder | sciore-simpledb-maven/server/src/main/java/simpledb/buffer/BasicBufferMgr.java:120-127 | when no block is resident twice, any slot that holds the block is the one the lookup returns |
| Slots.FindNoneAfterUpdate | sciore-simpledb-maven/server/src/main/java/simpledb/buffer/BasicBufferMgr.java:120-127 | overwriting a slot with something other than the block cannot make a non-resident block resident |
| Slots.FindAfterStore | sciore-simpledb-maven/server/src/main/java/simpledb/buffer/BasicBufferMgr.java:67 | after a block is assigned to a slot with no earlier holder, the lookup finds it in that slot |
| IndexLists.IndexOf | sciore-simpledb-maven/server/src/main/java/simpledb/buffer/BasicBufferMgr.java:73-74 | the list position is the first occurrence of the index, and -1 exactly when the index is absent |
| IndexLists.Remove | sciore-simpledb-maven/server/src/main/java/simpledb/buffer/BasicBufferMgr.java:74 | removing an absent index leaves the list as is; removing a present one shortens it by one |
| IndexLists.RemoveMultiset | sciore-simpledb-maven/server/src/main/java/simpledb/buffer/BasicBufferMgr.java:74 | removal takes exactly one occurrence out of the list's multiset and keeps every other element |
| IndexLists.RemoveNoDup | sciore-simpledb-maven/server/src/main/java/simpledb/buffer/BasicBufferMgr.java:174 | on a duplicate-free list, removal takes the index out completely and keeps the list duplicate-free and in range |
| IndexLists.RemoveBelow | sciore-simpledb-maven/server/src/main/java/simpledb/buffer/BasicBufferMgr.java:189 | removal keeps every entry a valid slot index |
| IndexLists.MoveToTail | sciore-simpledb-maven/server/src/main/java/simpledb/buffer/BasicBufferMgr.java:73-75 | after the remove-then-append update the index is at the tail, and everything before the tail is the list with the index removed |
| IndexLists.MoveToTailBelow | sciore-simpledb-maven/server/src/main/java/simpledb/buffer/BasicBufferMgr.java:105-107 | the update keeps every entry a valid slot index |
| IndexLists.MoveToTailMultiset | sciore-simpledb-maven/server/src/main/java/simpledb/buffer/BasicBufferMgr.java:73-75 | the update changes no other element's multiplicity |
| IndexLists.MoveToTailAbsent | sciore-simpledb-maven/server/src/main/java/simpledb/buffer/BasicBufferMgr.java:73-75 | an index not yet in the list is simply appended |
| IndexLists.MoveToTailFrom | sciore-simpledb-maven/server/src/main/java/simpledb/buffer/BasicBufferMgr.java:73-75 | an index first found at position k is cut out there and appended, the rest keeping its order |
| IndexLists.MoveToTailNoDup | sciore-simpledb-maven/server/src/main/java/simpledb/buffer/BasicBufferMgr.java:104-107 | on a duplicate-free list the index ends up exactly once, at the tail, and the list stays duplicate-free and in range |
| IndexLists.TailNoDup | sciore-simpledb-maven/server/src/main/java/simpledb/buffer/BasicBufferMgr.java:174 | dropping the head of a duplicate-free list removes its only occurrence |
| Policies.NaiveVictim | sciore-simpledb-maven/server/src/main/java/simpledb/buffer/BasicBufferMgr.java:160-165 | the victim is unpinned and every lower-numbered slot is pinned; there is none exactly when every slot is pinned |
| Policies.TakeHead | sciore-simpledb-maven/server/src/main/java/simpledb/buffer/BasicBufferMgr.java:170-193 | FIFO and LRU look only at the head: an unpinned head is returned and dropped from the list, a pinned head gives no victim, and an empty list is the exception case |
| Policies.TakeHeadIgnoresOtherSlots | sciore-simpledb-maven/server/src/main/java/simpledb/buffer/BasicBufferMgr.java:170-178 | the head-only outcome depends on no slot other than the head's, so free slots elsewhere never matter |
| Policies.ProbeUnfold | sciore-simpledb-maven/server/src/main/java/simpledb/buffer/BasicBufferMgr.java:200-206 | with the slot count as modulus, every probed index is a valid slot, the start comes round again only after a full turn, and the k-th probe lies k steps ahead |
| Policies.ClockScan | sciore-simpledb-maven/server/src/main/java/simpledb/buffer/BasicBufferMgr.java:201-208 | from step k on, the scan returns the first unpinned slot met going forward, or none exactly when every remaining slot before the start is pinned |
| Policies.ClockVictim | sciore-simpledb-maven/server/src/main/java/simpledb/buffer/BasicBufferMgr.java:198-209 | Clock returns the first unpinned slot going circularly forward from just after the start, never the start itself, and none exactly when every other slot is pinned |
| Policies.ClockAsWritten | sciore-simpledb-maven/server/src/main/java/simpledb/buffer/BasicBufferMgr.java:198-209 | the literal scan, modulo the slot count plus one, finds only unpinned slots other than the start, and any out-of-range read is at index n |
| Policies.ClockAsWrittenFrom | sciore-simpledb-maven/server/src/main/java/simpledb/buffer/BasicBufferMgr.java:200-207 | the literal loop, started above the start index, never comes back round to it: it returns an unpinned slot at or after the scan index, or reads index n out of bounds |
| Policies.ClockAsWrittenLemma | sciore-simpledb-maven/server/src/main/java/simpledb/buffer/BasicBufferMgr.java:201-206 | from a scan index above the start, the literal loop finds the first unpinned slot below n or else reads index n |
| Policies.ClockAsWrittenNeverWraps | sciore-simpledb-maven/server/src/main/java/simpledb/buffer/BasicBufferMgr.java:201-203 | the literal scan never wraps: it agrees with the corrected scan when a free slot lies above the start, and otherwise reads past the end of the pool |
| Policies.ClockAsWrittenOverruns | sciore-simpledb-maven/server/src/main/java/simpledb/buffer/BasicBufferMgr.java:201-203 | two free slots scanned after slot 1: the literal loop reads slot 2, which does not exist, while the corrected scan returns slot 0 |
| Policies.Choose | sciore-simpledb-maven/server/src/main/java/simpledb/buffer/BasicBufferMgr.java:129-142 | the dispatch only ever returns an unpinned slot; an unknown code gives no victim; the list exception happens exactly for an empty FIFO list under FIFO/Clock or an empty LRU list under LRU; FIFO and LRU yield a victim exactly when the head of their list is unpinned, and then that head; Clock yields a victim exactly when the circular scan after the arrival tail finds one, and then that slot; only the chosen policy's own list changes |
| Policies.ChooseKeepsNoDup | sciore-simpledb-maven/server/src/main/java/simpledb/buffer/BasicBufferMgr.java:170-193 | selection keeps both lists duplicate-free |
| BufferMgr.PinSlot | sciore-simpledb-maven/server/src/main/java/simpledb/buffer/BasicBufferMgr.java:69-75 | the shared tail of pin keeps both lists within the slot range |
| BufferMgr.Pin | sciore-simpledb-maven/server/src/main/java/simpledb/buffer/BasicBufferMgr.java:61-77 | pin keeps the pool size and strategy; when it fails, the pool is exactly as before; a pinned slot is a valid index |
| BufferMgr.PinVictim | sciore-simpledb-maven/server/src/main/java/simpledb/buffer/BasicBufferMgr.java:63-75 | the miss branch of pin only ever pins a slot that was unpinned, and leaves the pool unchanged when there is no victim |
| BufferMgr.PinReply | sciore-simpledb-maven/server/src/main/java/simpledb/buffer/BasicBufferMgr.java:61-66 | a hit answers with the resident slot; a miss pins only a slot that was unpinned; failure happens only on a miss, and the list exception exactly when the strategy's list is empty |
| BufferMgr.PinHit | sciore-simpledb-maven/server/src/main/java/simpledb/buffer/BasicBufferMgr.java:61-75 | on a hit the resident slot gains exactly one pin and nothing else in the slots changes; the counter drops only if that slot was unpinned; the slot moves to the arrival tail; the recency list is untouched |
| BufferMgr.PinMiss | sciore-simpledb-maven/server/src/main/java/simpledb/buffer/BasicBufferMgr.java:62-75 | on a miss with a victim, the victim receives the block with a single pin, the counter drops by one, and the victim goes to the tail of the arrival list as the policy left it |
| BufferMgr.PinStores | sciore-simpledb-maven/server/src/main/java/simpledb/buffer/BasicBufferMgr.java:67-71 | whichever branch, a successful pin stores the block in the returned slot with one more pin than before, and the counter drops exactly when that slot had been available |
| BufferMgr.PinMakesResident | sciore-simpledb-maven/server/src/main/java/simpledb/buffer/BasicBufferMgr.java:61-71 | after a successful pin the lookup finds the block in the returned slot, which has one more pin |
| BufferMgr.PinAgainReusesSlot | sciore-simpledb-maven/server/src/main/java/simpledb/buffer/BasicBufferMgr.java:61-71 | pinning the same block twice gives the same slot both times, with two more pins |
| BufferMgr.PinPreservesValid | sciore-simpledb-maven/server/src/main/java/simpledb/buffer/BasicBufferMgr.java:61-77 | pin preserves the bookkeeping invariant, and afterwards the pinned slot occurs exactly once in the arrival list, at its tail |
| BufferMgr.PinUpdatesLists | sciore-simpledb-maven/server/src/main/java/simpledb/buffer/BasicBufferMgr.java:72-75 | pin moves the slot to the arrival tail (after FIFO took the head), and changes the recency list only when LRU took its head |
| BufferMgr.PinSlotKeepsValid | sciore-simpledb-maven/server/src/main/java/simpledb/buffer/BasicBufferMgr.java:69-75 | the pin step keeps the invariant when no other slot holds the block |
| BufferMgr.NaiveMiss | sciore-simpledb-maven/server/src/main/java/simpledb/buffer/BasicBufferMgr.java:160-165 | under Naive, a miss fills the lowest-numbered unpinned slot with the block |
| BufferMgr.FifoMiss | sciore-simpledb-maven/server/src/main/java/simpledb/buffer/BasicBufferMgr.java:170-178 | under FIFO, a miss with an unpinned head fills that slot and moves it from the head of the arrival list to its tail |
| BufferMgr.LruMiss | sciore-simpledb-maven/server/src/main/java/simpledb/buffer/BasicBufferMgr.java:183-193 | under LRU, a miss with an unpinned head fills that slot and drops it from the recency list |
| BufferMgr.ClockMiss | sciore-simpledb-maven/server/src/main/java/simpledb/buffer/BasicBufferMgr.java:198-209 | under Clock, a miss pins the slot the circular scan finds after the arrival tail, with the block pinned once and the counter down by one; when the scan finds nothing, pin fails and nothing changes |
| BufferMgr.PinNew | sciore-simpledb-maven/server/src/main/java/simpledb/buffer/BasicBufferMgr.java:88-96 | pinNew repurposes an unpinned victim with the new block pinned once and the counter down by one; it never appends to the arrival list; under Naive it succeeds exactly when some slot is unpinned; failure changes nothing |
| BufferMgr.PinNewShape | sciore-simpledb-maven/server/src/main/java/simpledb/buffer/BasicBufferMgr.java:89-95 | a successful pinNew is exactly the policy's victim holding the new block once, with the lists as the policy left them |
| BufferMgr.PinNewPreservesValid | sciore-simpledb-maven/server/src/main/java/simpledb/buffer/BasicBufferMgr.java:88-96 | pinNew of a block that is not resident preserves the bookkeeping invariant |
| BufferMgr.Unpin | sciore-simpledb-maven/server/src/main/java/simpledb/buffer/BasicBufferMgr.java:102-110 | unpin drops one pin from the slot and changes no other slot; the counter rises exactly when no pin is left; the slot goes to the recency tail; the arrival list is untouched |
| BufferMgr.UnpinPreservesValid | sciore-simpledb-maven/server/src/main/java/simpledb/buffer/BasicBufferMgr.java:102-110 | unpin preserves the bookkeeping invariant, and the slot then occurs exactly once in the recency list, at its tail |
| BufferMgr.UnpinUndoesStore | sciore-simpledb-maven/server/src/main/java/simpledb/buffer/BasicBufferMgr.java:103-109 | unpinning a slot that has one pin more than n takes it back to n, and the counter rises exactly when n is 0 |
| BufferMgr.PinThenUnpin | sciore-simpledb-maven/server/src/main/java/simpledb/buffer/BasicBufferMgr.java:61-110 | unpin undoes a successful pin: the counter and all pin counts are back to where they were; after a hit the slots are exactly as before |
| BufferMgr.Available | sciore-simpledb-maven/server/src/main/java/simpledb/buffer/BasicBufferMgr.java:116-118 | on a valid pool the counter is the number of unpinned slots, between 0 and the pool size, and 0 exactly when every slot is pinned |
| BufferMgr.SetStrategy | sciore-simpledb-maven/server/src/main/java/simpledb/buffer/BasicBufferMgr.java:153-155 | any code is accepted, only the strategy changes, and the invariant is kept |
| BufferMgr.UnknownStrategyFails | sciore-simpledb-maven/server/src/main/java/simpledb/buffer/BasicBufferMgr.java:139-140 | with an unrecognised strategy code, a miss under pin and every pinNew return null and change nothing |
| BufferMgr.AllPinnedFails | sciore-simpledb-maven/server/src/main/java/simpledb/buffer/BasicBufferMgr.java:63-66 | when every slot is pinned, pin of a non-resident block and pinNew fail under every strategy and change nothing |
| BufferMgr.FreshPoolNeedsHistory | sciore-simpledb-maven/server/src/main/java/simpledb/buffer/BasicBufferMgr.java:170-199 | on a new pool switched to FIFO, LRU or Clock, the first pin and the first pinNew hit the empty-list exception |
| Scenarios.InitThree | sciore-simpledb-maven/server/src/main/java/simpledb/buffer/BasicBufferMgr.java:32-40 | a new three-slot pool is three empty slots, counter 3, empty lists, Naive |
| Scenarios.PinA | sciore-simpledb-maven/server/src/main/java/simpledb/buffer/BasicBufferMgr.java:61-77 | the first pin on a new pool takes slot 0 and records it in the arrival list |
| Scenarios.PinB | sciore-simpledb-maven/server/src/main/java/simpledb/buffer/BasicBufferMgr.java:61-77 | the second pin takes slot 1, the lowest unpinned slot |
| Scenarios.PinC | sciore-simpledb-maven/server/src/main/java/simpledb/buffer/BasicBufferMgr.java:61-77 | the third pin takes slot 2 and the counter reaches 0 |
| Scenarios.UnpinB | sciore-simpledb-maven/server/src/main/java/simpledb/buffer/BasicBufferMgr.java:102-110 | unpinning B frees slot 1 and starts the recency list with it |
| Scenarios.UnpinA | sciore-simpledb-maven/server/src/main/java/simpledb/buffer/BasicBufferMgr.java:102-110 | unpinning A appends slot 0 behind slot 1 |
| Scenarios.UnpinC | sciore-simpledb-maven/server/src/main/java/simpledb/buffer/BasicBufferMgr.java:102-110 | unpinning C appends slot 2 and the counter is back to 3 |
| Scenarios.MoveSlot1 | sciore-simpledb-maven/server/src/main/java/simpledb/buffer/BasicBufferMgr.java:73-75 | re-pinning slot 1 moves it from the middle of the arrival list to its tail |
| Scenarios.MoveSlot0 | sciore-simpledb-maven/server/src/main/java/simpledb/buffer/BasicBufferMgr.java:73-75 | pinning into slot 0 moves it from the head of [0, 2, 1] to its tail |
| Scenarios.MoveSlot2 | sciore-simpledb-maven/server/src/main/java/simpledb/buffer/BasicBufferMgr.java:73-75 | pinning into slot 2 moves it from the head of [2, 1, 0] to its tail |
| Scenarios.LruRunSlots | sciore-simpledb-maven/server/src/main/java/simpledb/buffer/BasicBufferMgr.java:67-71 | each LRU miss stores the new block with one pin in the victim slot and leaves the other slots as they were |
| Scenarios.LruPinD | sciore-simpledb-maven/server/src/main/java/simpledb/buffer/BasicBufferMgr.java:183-193 | under LRU, D lands in slot 1, the least recently unpinned |
| Scenarios.LruPinE | sciore-simpledb-maven/server/src/main/java/simpledb/buffer/BasicBufferMgr.java:183-193 | E then lands in slot 0 |
| Scenarios.LruPinF | sciore-simpledb-maven/server/src/main/java/simpledb/buffer/BasicBufferMgr.java:183-193 | F then lands in slot 2, and the recency list is empty |
| Scenarios.LruEvictsInUnpinOrder | sciore-simpledb-maven/server/src/main/java/simpledb/buffer/BasicBufferMgr.java:183-193 | LRU evicts in the order the slots were unpinned (B, A, C), not in pin order |
| Scenarios.ReachHeadStillPinned | sciore-simpledb-maven/server/src/main/java/simpledb/buffer/BasicBufferMgr.java:102-110 | unpinning B and then C while A stays pinned, then switching to FIFO, leaves A's pinned slot at the head of the arrival list |
| Scenarios.FifoEvictsOldest | sciore-simpledb-maven/server/src/main/java/simpledb/buffer/BasicBufferMgr.java:170-178 | FIFO evicts the slot pinned longest ago (A's), although B's slot was unpinned first |
| Scenarios.FifoIsHeadOnly | sciore-simpledb-maven/server/src/main/java/simpledb/buffer/BasicBufferMgr.java:170-178 | with the head of the arrival list pinned, FIFO fails although two slots are free, and nothing changes |
| Scenarios.RepinA | sciore-simpledb-maven/server/src/main/java/simpledb/buffer/BasicBufferMgr.java:72-75 | pinning A again under FIFO is a hit that moves slot 0 from the head of the arrival list to its tail |
| Scenarios.MoveHead | sciore-simpledb-maven/server/src/main/java/simpledb/buffer/BasicBufferMgr.java:73-75 | moving slot 0 from the head of [0, 1, 2] gives [1, 2, 0] |
| Scenarios.RepinSlots | sciore-simpledb-maven/server/src/main/java/simpledb/buffer/BasicBufferMgr.java:69-71 | the hit on A adds one pin to slot 0 and leaves the other slots as they were |
| Scenarios.FifoRepinDefersHead | sciore-simpledb-maven/server/src/main/java/simpledb/buffer/BasicBufferMgr.java:170-178 | after A is pinned again, the next FIFO miss takes B's slot, the new head, rather than A's |
| Scenarios.InitFour | sciore-simpledb-maven/server/src/main/java/simpledb/buffer/BasicBufferMgr.java:32-40 | a new four-slot pool is four empty slots, counter 4, empty lists, Naive |
| Scenarios.FourRunSlots | sciore-simpledb-maven/server/src/main/java/simpledb/buffer/BasicBufferMgr.java:67-71 | each Naive miss of the four-slot run stores the new block with one pin in the next empty slot |
| Scenarios.FourRunLists | sciore-simpledb-maven/server/src/main/java/simpledb/buffer/BasicBufferMgr.java:73-75 | each of those misses appends its slot to the arrival list |
| Scenarios.PinFourA | sciore-simpledb-maven/server/src/main/java/simpledb/buffer/BasicBufferMgr.java:61-77 | the first pin on the four-slot pool takes slot 0 |
| Scenarios.PinFourB | sciore-simpledb-maven/server/src/main/java/simpledb/buffer/BasicBufferMgr.java:61-77 | the second pin takes slot 1 |
| Scenarios.PinFourC | sciore-simpledb-maven/server/src/main/java/simpledb/buffer/BasicBufferMgr.java:61-77 | the third pin takes slot 2 |
| Scenarios.PinFourD | sciore-simpledb-maven/server/src/main/java/simpledb/buffer/BasicBufferMgr.java:61-77 | the fourth pin takes slot 3 and the counter reaches 0 |
| Scenarios.UnpinFourB | sciore-simpledb-maven/server/src/main/java/simpledb/buffer/BasicBufferMgr.java:102-110 | unpinning B frees slot 1 and starts the recency list with it |
| Scenarios.UnpinFourD | sciore-simpledb-maven/server/src/main/java/simpledb/buffer/BasicBufferMgr.java:102-110 | unpinning D frees slot 3 and appends it behind slot 1 |
| Scenarios.RepinFourLists | sciore-simpledb-maven/server/src/main/java/simpledb/buffer/BasicBufferMgr.java:73-75 | re-pinning slot 1 turns the arrival list [0, 1, 2, 3] into [0, 2, 3, 1] |
| Scenarios.RepinFourSlots | sciore-simpledb-maven/server/src/main/java/simpledb/buffer/BasicBufferMgr.java:69-71 | the hit on B gives slot 1 one pin and leaves the other slots as they were |
| Scenarios.RepinFourB | sciore-simpledb-maven/server/src/main/java/simpledb/buffer/BasicBufferMgr.java:61-77 | pinning B again is a hit on slot 1 that moves it to the tail of the arrival list, takes it off the counter, and leaves the recency list as it was |
| Scenarios.UnpinFourBAgain | sciore-simpledb-maven/server/src/main/java/simpledb/buffer/BasicBufferMgr.java:102-110 | unpinning B again moves slot 1 behind slot 3 in the recency list and makes it available again |
| Scenarios.ReachClockPool | sciore-simpledb-maven/server/src/main/java/simpledb/buffer/BasicBufferMgr.java:102-110 | ClockPool is reached from a new four-slot pool: pin A, B, C, D; unpin B and D; pin and unpin B again; switch to Clock |
| Scenarios.ClockPicksAfterCursor | sciore-simpledb-maven/server/src/main/java/simpledb/buffer/BasicBufferMgr.java:198-209 | with four slots and the cursor at slot 1, Clock probes 2 and then 3 and picks 3; the literal scan agrees because it does not need to wrap |

## Left out

- BufferMgr.Init: takes n: nat; the source throws NegativeArraySizeException
  for a negative slot count (BasicBufferMgr.java:33), and that error path is
  not modelled.

- `flushAll` (BasicBufferMgr.java:46-50) is disk and log I/O through `Buffer`,
  `FileMgr` and `LogMgr`. Those classes are not part of this model.
- `getBuffers` (BasicBufferMgr.java:146-148) only exposes the raw array, which
  is aliasing and not behaviour.
- `Clocklast` (BasicBufferMgr.java:17, 36) is written once and never read.
- The debug printing in the LRU policy (BasicBufferMgr.java:184, 186) is output
  only.
- `synchronized` and thread interleaving. Every operation is one atomic step.
- BufferMgr.SetStrategy / BufferMgr.Available: their unsynchronized access is
  not modelled. In the source, a `setStrategy` that runs during a `pin` races
  on the non-volatile `strategy` field, and `available` may read a stale
  counter (BasicBufferMgr.java:116-118, 153-155).
- Policies.Choose: the Clock branch uses ClockVictim, which wraps modulo the
  slot count. The source's scan (modulus n + 1) throws whenever no unpinned
  slot lies above the arrival tail; see "## Findings".
- `Buffer` itself is not part of this model:
  - `assignToBlock` and `assignToNew` are modelled as setting the slot's block;
  - page contents, `PageFormatter`, and the dirty/modified state are left out.
- BufferMgr.PinNew: takes the new block as a parameter. `FileMgr.append`,
  which allocates it at the end of the file, is not part of this model.
- BufferMgr.PinNewPreservesValid: requires that the new block is not already
  resident. A block just appended past the end of its file cannot be resident,
  but that guarantee lives in `FileMgr`, which is not modelled.
- BufferMgr.Unpin: requires the slot to hold a pin. What `Buffer.unpin` does on
  an unpinned buffer is not visible.
- BufferMgr.Unpin: takes the slot index rather than the buffer object. In the
  source, `indexOf` on the pool array finds that index by identity. For a
  `Buffer` that is not in the pool, `indexOf` returns -1
  (BasicBufferMgr.java:104), line 107 appends -1 to `LRUlist`, and a later LRU
  selection reads `bufferpool[-1]`. The model has no such slot index.
- Java's `int` wrap-around of the counter is not modelled. The counter lies
  between 0 and the pool size on every valid pool.
- Blocks are a file name and a block number, compared field by field, which
  stands in for `Block.equals`.
- Exceptions from `get` on an empty list become the reply `ListEmpty` and leave
  the pool unchanged. Java propagates them instead.

## Findings

| source | as written | input that shows it | evidently intended | confidence | as-written member | corrected member |
|---|---|---|---|---|---|---|
| sciore-simpledb-maven/server/src/main/java/simpledb/buffer/BasicBufferMgr.java:201-203 | the Clock scan reduces the index modulo the slot count plus one, so it never wraps to slot 0 and instead reads the array at index n (ArrayIndexOutOfBoundsException) | two unpinned slots, arrival tail at slot 1: the scan probes index 2 | wrap modulo the slot count, so slot 0 is probed next and returned | not executed | Policies.ClockAsWrittenOverruns | Policies.ClockVictim |

/**
 Concrete runs of the buffer manager that pin down the tie-break rules of
 the LRU, FIFO and Clock policies on small pools. Each single-step lemma
 fixes the exact pool after one call; the scenario lemmas chain them.
 */
module Scenarios {
  import opened Slots
  import opened IndexLists
  import opened Policies
  import opened BufferMgr

  const A: Block := Block("f", 0)
  const B: Block := Block("f", 1)
  const C: Block := Block("f", 2)
  const D: Block := Block("f", 3)
  const E: Block := Block("f", 4)
  const F: Block := Block("f", 5)

  // Pools of three slots along the run: A, B, C pinned in that order under
  // the default (Naive) strategy, then unpinned in the order B, A, C.
  const Empty3: Pool := Pool([Unassigned, Unassigned, Unassigned], 3, Naive, [], [])
  const Pinned1: Pool := Pool([Slot(Some(A), 1), Unassigned, Unassigned], 2, Naive, [0], [])
  const Pinned2: Pool := Pool([Slot(Some(A), 1), Slot(Some(B), 1), Unassigned], 1, Naive, [0, 1], [])
  const Pinned3: Pool := Pool([Slot(Some(A), 1), Slot(Some(B), 1), Slot(Some(C), 1)], 0, Naive, [0, 1, 2], [])
  const Unpinned1: Pool := Pool([Slot(Some(A), 1), Slot(Some(B), 0), Slot(Some(C), 1)], 1, Naive, [0, 1, 2], [1])
  const Unpinned2: Pool := Pool([Slot(Some(A), 0), Slot(Some(B), 0), Slot(Some(C), 1)], 2, Naive, [0, 1, 2], [1, 0])
  const AfterBAC: Pool := Pool([Slot(Some(A), 0), Slot(Some(B), 0), Slot(Some(C), 0)], 3, Naive, [0, 1, 2], [1, 0, 2])

  /** A new pool of three slots. */
  lemma InitThree()
    ensures Init(3) == Empty3
  {
    assert Init(3).slots == Empty3.slots;
  }

  lemma PinA()
    ensures Pin(Empty3, A) == Step(Pinned(0), Pinned1)
  {
    var p := Empty3;
    assert !p.slots[0].IsPinned();
    assert Find(p.slots, A).None?;
    NaiveMiss(p, A);
    var r := Pin(p, A);
    assert r.reply == Pinned(0);
    MoveToTailAbsent([], 0);
    assert r.pool.slots == Pinned1.slots;
  }

  lemma PinB()
    ensures Pin(Pinned1, B) == Step(Pinned(1), Pinned2)
  {
    var p := Pinned1;
    assert p.slots[0].IsPinned() && !p.slots[1].IsPinned();
    assert Find(p.slots, B).None?;
    NaiveMiss(p, B);
    var r := Pin(p, B);
    assert r.reply == Pinned(1);
    MoveToTailAbsent([0], 1);
    assert r.pool.slots == Pinned2.slots;
  }

  lemma PinC()
    ensures Pin(Pinned2, C) == Step(Pinned(2), Pinned3)
  {
    var p := Pinned2;
    assert p.slots[0].IsPinned() && p.slots[1].IsPinned() && !p.slots[2].IsPinned();
    assert Find(p.slots, C).None?;
    NaiveMiss(p, C);
    var r := Pin(p, C);
    assert r.reply == Pinned(2);
    MoveToTailAbsent([0, 1], 2);
    assert r.pool.slots == Pinned3.slots;
  }

  lemma UnpinB()
    ensures Unpin(Pinned3, 1) == Unpinned1
  {
    MoveToTailAbsent([], 1);
    assert Pinned3.slots[1 := Slot(Some(B), 0)] == Unpinned1.slots;
  }

  lemma UnpinA()
    ensures Unpin(Unpinned1, 0) == Unpinned2
  {
    MoveToTailAbsent([1], 0);
    assert Unpinned1.slots[0 := Slot(Some(A), 0)] == Unpinned2.slots;
  }

  lemma UnpinC()
    ensures Unpin(Unpinned2, 2) == AfterBAC
  {
    MoveToTailAbsent([1, 0], 2);
    assert Unpinned2.slots[2 := Slot(Some(C), 0)] == AfterBAC.slots;
  }

  // The LRU run from AfterBAC: D, E and F pinned in turn.
  const Lru1: Pool := Pool([Slot(Some(A), 0), Slot(Some(D), 1), Slot(Some(C), 0)], 2, Lru, [0, 2, 1], [0, 2])
  const Lru2: Pool := Pool([Slot(Some(E), 1), Slot(Some(D), 1), Slot(Some(C), 0)], 1, Lru, [2, 1, 0], [2])
  const Lru3: Pool := Pool([Slot(Some(E), 1), Slot(Some(D), 1), Slot(Some(F), 1)], 0, Lru, [1, 0, 2], [])

  // The list updates of the LRU run, worked out on their own.
  lemma MoveSlot1()
    ensures MoveToTail([0, 1, 2], 1) == [0, 2, 1]
  {
    MoveToTailFrom([0, 1, 2], 1, 1);
    assert [0, 1, 2][..1] + [0, 1, 2][2..] == [0, 2];
  }

  lemma MoveSlot0()
    ensures MoveToTail([0, 2, 1], 0) == [2, 1, 0]
  {
    MoveToTailFrom([0, 2, 1], 0, 0);
  }

  lemma MoveSlot2()
    ensures MoveToTail([2, 1, 0], 2) == [1, 0, 2]
  {
    MoveToTailFrom([2, 1, 0], 2, 0);
  }

  /** The slot updates of the LRU run, worked out on their own. */
  lemma LruRunSlots()
    ensures AfterBAC.slots[1 := Slot(Some(D), 1)] == Lru1.slots
    ensures Lru1.slots[0 := Slot(Some(E), 1)] == Lru2.slots
    ensures Lru2.slots[2 := Slot(Some(F), 1)] == Lru3.slots
  {
    assert AfterBAC.slots == [Slot(Some(A), 0), Slot(Some(B), 0), Slot(Some(C), 0)];
    assert Lru1.slots == [Slot(Some(A), 0), Slot(Some(D), 1), Slot(Some(C), 0)];
    assert Lru2.slots == [Slot(Some(E), 1), Slot(Some(D), 1), Slot(Some(C), 0)];
    assert Lru3.slots == [Slot(Some(E), 1), Slot(Some(D), 1), Slot(Some(F), 1)];
  }

  lemma LruPinD()
    ensures Pin(SetStrategy(AfterBAC, Lru), D) == Step(Pinned(1), Lru1)
  {
    var p := SetStrategy(AfterBAC, Lru);
    assert p.lru[0] == 1 && !p.slots[1].IsPinned();
    assert Find(p.slots, D).None?;
    LruMiss(p, D);
    MoveSlot1();
    LruRunSlots();
  }

  lemma LruPinE()
    ensures Pin(Lru1, E) == Step(Pinned(0), Lru2)
  {
    var p := Lru1;
    assert p.lru[0] == 0 && !p.slots[0].IsPinned();
    assert Find(p.slots, E).None?;
    LruMiss(p, E);
    MoveSlot0();
    LruRunSlots();
  }

  lemma LruPinF()
    ensures Pin(Lru2, F) == Step(Pinned(2), Lru3)
  {
    var p := Lru2;
    assert p.lru[0] == 2 && !p.slots[2].IsPinned();
    assert Find(p.slots, F).None?;
    LruMiss(p, F);
    MoveSlot2();
    LruRunSlots();
  }

  /** LRU evicts the least recently unpinned slot first: after unpinning
      B, A, C, three new blocks land in B's, A's and C's slots in that
      order, and then every slot is pinned and the recency list is empty. */
  lemma LruEvictsInUnpinOrder()
    ensures Pin(SetStrategy(AfterBAC, Lru), D).reply == Pinned(1)
    ensures Pin(Pin(SetStrategy(AfterBAC, Lru), D).pool, E).reply == Pinned(0)
    ensures Pin(Pin(Pin(SetStrategy(AfterBAC, Lru), D).pool, E).pool, F) == Step(Pinned(2), Lru3)
  {
    LruPinD();
    LruPinE();
    LruPinF();
  }

  /** From Pinned3, B and C unpinned while A stays pinned, then the
      strategy switched to FIFO: A's slot is still at the head of the
      arrival list. */
  const HeadStillPinned: Pool := Pool([Slot(Some(A), 1), Slot(Some(B), 0), Slot(Some(C), 0)], 2, Fifo, [0, 1, 2], [1, 2])

  /** HeadStillPinned is reached by unpinning B, then C, then switching
      to FIFO. */
  lemma ReachHeadStillPinned()
    ensures SetStrategy(Unpin(Unpin(Pinned3, 1), 2), Fifo) == HeadStillPinned
  {
    UnpinB();
    MoveToTailAbsent([1], 2);
    assert Unpinned1.slots[2 := Slot(Some(C), 0)] == HeadStillPinned.slots;
  }

  /** FIFO evicts the slot pinned longest ago: A's, although B's slot was
      unpinned before it. */
  lemma FifoEvictsOldest()
    ensures Pin(SetStrategy(AfterBAC, Fifo), D).reply == Pinned(0)
  {
    var p := SetStrategy(AfterBAC, Fifo);
    assert p.fifo[0] == 0 && !p.slots[0].IsPinned();
    assert Find(p.slots, D).None?;
    FifoMiss(p, D);
  }

  /** With A's slot pinned at the head of the arrival list, FIFO reports
      no victim although slots 1 and 2 are free, and nothing changes. */
  lemma FifoIsHeadOnly()
    ensures Pin(HeadStillPinned, D) == Step(Exhausted, HeadStillPinned)
    ensures !HeadStillPinned.slots[1].IsPinned() && !HeadStillPinned.slots[2].IsPinned()
  {
    var q := HeadStillPinned;
    assert Find(q.slots, D).None?;
    assert TakeHead(q.slots, q.fifo) == HeadPinned;
    PinReply(q, D);
  }

  /** AfterBAC under FIFO once A has been pinned again: the hit moved slot 0
      from the head of the arrival list to its tail. */
  const Repinned: Pool := Pool([Slot(Some(A), 1), Slot(Some(B), 0), Slot(Some(C), 0)], 2, Fifo, [1, 2, 0], [1, 0, 2])

  /** Pinning A again under FIFO is a hit on slot 0. */
  lemma RepinA()
    ensures Pin(SetStrategy(AfterBAC, Fifo), A) == Step(Pinned(0), Repinned)
  {
    var p := SetStrategy(AfterBAC, Fifo);
    assert Find(p.slots, A) == Some(0);
    PinHit(p, A);
    MoveHead();
    RepinSlots();
  }

  // The two list and slot facts RepinA needs, kept apart from Pin.
  lemma MoveHead()
    ensures MoveToTail([0, 1, 2], 0) == [1, 2, 0]
  {
    MoveToTailFrom([0, 1, 2], 0, 0);
  }

  lemma RepinSlots()
    ensures AfterBAC.slots[0 := Slot(Some(A), AfterBAC.slots[0].pins + 1)] == Repinned.slots
  {
    assert AfterBAC.slots == [Slot(Some(A), 0), Slot(Some(B), 0), Slot(Some(C), 0)];
  }

  /** Re-pinning the head of the arrival list sends it to the tail, so
      the next FIFO miss takes B's slot instead of A's. */
  lemma FifoRepinDefersHead()
    ensures Pin(SetStrategy(AfterBAC, Fifo), A).pool.fifo == [1, 2, 0]
    ensures Pin(Pin(SetStrategy(AfterBAC, Fifo), A).pool, D).reply == Pinned(1)
  {
    RepinA();
    var q := Repinned;
    assert q.fifo[0] == 1 && !q.slots[1].IsPinned();
    assert Find(q.slots, D).None?;
    FifoMiss(q, D);
  }

  // Pools of four slots along a second run: A, B, C, D pinned under Naive,
  // B and D unpinned, B pinned again and unpinned again.
  const Empty4: Pool := Pool([Unassigned, Unassigned, Unassigned, Unassigned], 4, Naive, [], [])
  const Four1: Pool := Pool([Slot(Some(A), 1), Unassigned, Unassigned, Unassigned], 3, Naive, [0], [])
  const Four2: Pool := Pool([Slot(Some(A), 1), Slot(Some(B), 1), Unassigned, Unassigned], 2, Naive, [0, 1], [])
  const Four3: Pool := Pool([Slot(Some(A), 1), Slot(Some(B), 1), Slot(Some(C), 1), Unassigned], 1, Naive, [0, 1, 2], [])
  const Four4: Pool := Pool([Slot(Some(A), 1), Slot(Some(B), 1), Slot(Some(C), 1), Slot(Some(D), 1)], 0, Naive, [0, 1, 2, 3], [])
  const Four5: Pool := Pool([Slot(Some(A), 1), Slot(Some(B), 0), Slot(Some(C), 1), Slot(Some(D), 1)], 1, Naive, [0, 1, 2, 3], [1])
  const Four6: Pool := Pool([Slot(Some(A), 1), Slot(Some(B), 0), Slot(Some(C), 1), Slot(Some(D), 0)], 2, Naive, [0, 1, 2, 3], [1, 3])
  const Four7: Pool := Pool([Slot(Some(A), 1), Slot(Some(B), 1), Slot(Some(C), 1), Slot(Some(D), 0)], 1, Naive, [0, 2, 3, 1], [1, 3])
  const Four8: Pool := Pool([Slot(Some(A), 1), Slot(Some(B), 0), Slot(Some(C), 1), Slot(Some(D), 0)], 2, Naive, [0, 2, 3, 1], [3, 1])

  /** The slot updates of the four-slot run, worked out on their own. */
  lemma FourRunSlots()
    ensures Empty4.slots[0 := Slot(Some(A), 1)] == Four1.slots
    ensures Four1.slots[1 := Slot(Some(B), 1)] == Four2.slots
    ensures Four2.slots[2 := Slot(Some(C), 1)] == Four3.slots
    ensures Four3.slots[3 := Slot(Some(D), 1)] == Four4.slots
  {
    assert Four1.slots == [Slot(Some(A), 1), Unassigned, Unassigned, Unassigned];
    assert Four2.slots == [Slot(Some(A), 1), Slot(Some(B), 1), Unassigned, Unassigned];
    assert Four3.slots == [Slot(Some(A), 1), Slot(Some(B), 1), Slot(Some(C), 1), Unassigned];
    assert Four4.slots == [Slot(Some(A), 1), Slot(Some(B), 1), Slot(Some(C), 1), Slot(Some(D), 1)];
  }

  /** The arrival-list updates of the four-slot run. */
  lemma FourRunLists()
    ensures MoveToTail([], 0) == [0] && MoveToTail([0], 1) == [0, 1]
    ensures MoveToTail([0, 1], 2) == [0, 1, 2] && MoveToTail([0, 1, 2], 3) == [0, 1, 2, 3]
  {
    MoveToTailAbsent([], 0);
    MoveToTailAbsent([0], 1);
    MoveToTailAbsent([0, 1], 2);
    MoveToTailAbsent([0, 1, 2], 3);
  }

  // The arrival-list and slot updates of the hit on B, worked out on
  // their own.
  lemma RepinFourLists()
    ensures MoveToTail([0, 1, 2, 3], 1) == [0, 2, 3, 1]
  {
    MoveToTailFrom([0, 1, 2, 3], 1, 1);
    assert [0, 1, 2, 3][..1] + [0, 1, 2, 3][2..] == [0, 2, 3];
  }

  lemma RepinFourSlots()
    ensures Four6.slots[1 := Slot(Some(B), Four6.slots[1].pins + 1)] == Four7.slots
  {
    assert Four7.slots == [Slot(Some(A), 1), Slot(Some(B), 1), Slot(Some(C), 1), Slot(Some(D), 0)];
  }

  /** A new pool of four slots. */
  lemma InitFour()
    ensures Init(4) == Empty4
  {
    assert Init(4).slots == Empty4.slots;
  }

  lemma PinFourA()
    ensures Pin(Empty4, A) == Step(Pinned(0), Four1)
  {
    var p := Empty4;
    assert !p.slots[0].IsPinned();
    assert Find(p.slots, A).None?;
    NaiveMiss(p, A);
    var r := Pin(p, A);
    assert r.reply == Pinned(0);
    FourRunLists();
    FourRunSlots();
  }

  lemma PinFourB()
    ensures Pin(Four1, B) == Step(Pinned(1), Four2)
  {
    var p := Four1;
    assert p.slots[0].IsPinned() && !p.slots[1].IsPinned();
    assert Find(p.slots, B).None?;
    NaiveMiss(p, B);
    var r := Pin(p, B);
    assert r.reply == Pinned(1);
    FourRunLists();
    FourRunSlots();
  }

  lemma PinFourC()
    ensures Pin(Four2, C) == Step(Pinned(2), Four3)
  {
    var p := Four2;
    assert p.slots[0].IsPinned() && p.slots[1].IsPinned() && !p.slots[2].IsPinned();
    assert Find(p.slots, C).None?;
    NaiveMiss(p, C);
    var r := Pin(p, C);
    assert r.reply == Pinned(2);
    FourRunLists();
    FourRunSlots();
  }

  lemma PinFourD()
    ensures Pin(Four3, D) == Step(Pinned(3), Four4)
  {
    var p := Four3;
    assert p.slots[0].IsPinned() && p.slots[1].IsPinned() && p.slots[2].IsPinned();
    assert !p.slots[3].IsPinned();
    assert Find(p.slots, D).None?;
    NaiveMiss(p, D);
    var r := Pin(p, D);
    assert r.reply == Pinned(3);
    FourRunLists();
    FourRunSlots();
  }

  lemma UnpinFourB()
    ensures Unpin(Four4, 1) == Four5
  {
    MoveToTailAbsent([], 1);
    assert Four4.slots[1 := Slot(Some(B), 0)] == Four5.slots;
  }

  lemma UnpinFourD()
    ensures Unpin(Four5, 3) == Four6
  {
    MoveToTailAbsent([1], 3);
    assert Four5.slots[3 := Slot(Some(D), 0)] == Four6.slots;
  }

  /** Pinning B again is a hit on slot 1, which moves to the arrival tail;
      the recency list keeps slot 1. */
  lemma RepinFourB()
    ensures Pin(Four6, B) == Step(Pinned(1), Four7)
  {
    var p := Four6;
    assert p.slots[0].block != Some(B);
    assert Find(p.slots, B) == Some(1);
    PinHit(p, B);
    RepinFourLists();
    RepinFourSlots();
  }

  /** Unpinning B again moves slot 1 behind slot 3 in the recency list. */
  lemma UnpinFourBAgain()
    ensures Unpin(Four7, 1) == Four8
  {
    MoveToTailFrom([1, 3], 1, 0);
    assert Four7.slots[1 := Slot(Some(B), 0)] == Four8.slots;
  }

  /** Four slots, the arrival tail at slot 1, slots 0 and 2 pinned and
      slots 1 and 3 free, under Clock. */
  const ClockPool: Pool := Four8.(strategy := Clock)

  /** ClockPool is reached from a new pool of four slots by pinning A, B,
      C and D, unpinning B and D, pinning and unpinning B once more, and
      switching to Clock. */
  lemma ReachClockPool()
    ensures Init(4) == Empty4
    ensures Pin(Pin(Pin(Pin(Empty4, A).pool, B).pool, C).pool, D).pool == Four4
    ensures Unpin(Four4, 1) == Four5 && Unpin(Four5, 3) == Four6
    ensures Pin(Four6, B).pool == Four7
    ensures SetStrategy(Unpin(Four7, 1), Clock) == ClockPool
  {
    InitFour();
    PinFourA();
    PinFourB();
    PinFourC();
    PinFourD();
    UnpinFourB();
    UnpinFourD();
    RepinFourB();
    UnpinFourBAgain();
  }

  /** Clock starts after the arrival tail: it probes 2, then 3, and picks
      3, never the free slot 1 it started from; the literal scan agrees
      here because it does not need to wrap. */
  lemma ClockPicksAfterCursor()
    ensures Pin(ClockPool, E).reply == Pinned(3)
    ensures ClockAsWritten(ClockPool.slots, 1) == Found(3)
  {
    var q := ClockPool;
    assert Find(q.slots, E).None?;
    var v := ClockVictim(q.slots, 1);
    assert !q.slots[3].IsPinned();
    assert v == Some(3) by {
      assert q.slots[0].IsPinned() && q.slots[2].IsPinned();
    }
    ClockAsWrittenNeverWraps(q.slots, 1);
  }
}

/**
 The buffer manager itself (BasicBufferMgr): the pool state and the
 pin/unpin lifecycle operations, each one atomic step from one immutable
 pool value to the next.
 */
module BufferMgr {
  import opened Slots
  import opened IndexLists
  import opened Policies

  /** The pool: the fixed array of slots, the running count of unpinned
      slots, the strategy code, and the two auxiliary lists (arrival order,
      appended on pin; recency order, appended on unpin). */
  datatype Pool = Pool(slots: seq<Slot>, available: int, strategy: int, fifo: seq<nat>, lru: seq<nat>)

  /** Both auxiliary lists hold slot indices only. */
  predicate Indexed(p: Pool) {
    Below(p.fifo, |p.slots|) && Below(p.lru, |p.slots|)
  }

  /** The bookkeeping invariant: lists in range and duplicate-free, the
      counter equal to the number of unpinned slots, no block resident twice. */
  predicate Valid(p: Pool) {
    && Indexed(p)
    && NoDup(p.fifo)
    && NoDup(p.lru)
    && p.available == CountUnpinned(p.slots)
    && UniqueResidency(p.slots)
  }

  /** The constructor: `n` empty, unpinned slots, all of them available,
      both lists empty, and the strategy field at Java's default 0 (Naive). */
  function Init(n: nat): (p: Pool)
    ensures |p.slots| == n && forall i :: 0 <= i < n ==> p.slots[i] == Unassigned
    ensures p.available == n && p.fifo == [] && p.lru == [] && p.strategy == Naive
    ensures Valid(p)
  {
    Pool(seq(n, _ => Unassigned), n, Naive, [], [])
  }

  /** What pin and pinNew return: the pinned slot, null (no victim), or the
      exception Java raises on an empty auxiliary list. */
  datatype Reply = Pinned(slot: nat) | Exhausted | ListEmpty

  /** A reply together with the pool after the call. */
  datatype Step = Step(reply: Reply, pool: Pool)

  /** The tail shared by both branches of pin: slot `i` holds `blk` (it
      already did on a hit; assignToBlock made it so on a miss) and gains a
      pin; the counter drops if the slot was available; the slot moves to
      the tail of the arrival list. */
  function PinSlot(q: Pool, i: nat, blk: Block): (r: Pool)
    requires Indexed(q) && i < |q.slots|
    ensures Indexed(r)
  {
    MoveToTailBelow(q.fifo, i, |q.slots|);
    q.(slots := q.slots[i := Slot(Some(blk), q.slots[i].pins + 1)],
       available := if q.slots[i].IsPinned() then q.available else q.available - 1,
       fifo := MoveToTail(q.fifo, i))
  }

  /** The pin step as one record: `blk` with one more pin in slot `i`, the
      counter down by the slot's availability, `i` at the arrival tail. */
  lemma PinSlotShape(q: Pool, i: nat, blk: Block)
    requires Indexed(q) && i < |q.slots|
    ensures PinSlot(q, i, blk) == Pool(q.slots[i := Slot(Some(blk), q.slots[i].pins + 1)], q.available - Free(q.slots[i]), q.strategy, MoveToTail(q.fifo, i), q.lru)
  {
  }

  /** pin: reuse the slot already holding `blk`, or else repurpose the
      victim the strategy selects; pin the slot and record it at the tail
      of the arrival list. Without a victim nothing changes. */
  function Pin(p: Pool, blk: Block): (r: Step)
    requires Indexed(p)
    ensures Indexed(r.pool) && r.pool.strategy == p.strategy && |r.pool.slots| == |p.slots|
    ensures !r.reply.Pinned? ==> r.pool == p
    ensures r.reply.Pinned? ==> r.reply.slot < |p.slots|
  {
    match Find(p.slots, blk)
    case Some(i) => Step(Pinned(i), PinSlot(p, i, blk))
    case None => PinVictim(p, blk)
  }

  /** The miss branch of pin: ask the strategy for a victim, assign `blk`
      to it and pin it; without a victim nothing changes. */
  function PinVictim(p: Pool, blk: Block): (r: Step)
    requires Indexed(p)
    ensures Indexed(r.pool) && r.pool.strategy == p.strategy && |r.pool.slots| == |p.slots|
    ensures !r.reply.Pinned? ==> r.pool == p
    ensures r.reply.Pinned? ==> r.reply.slot < |p.slots| && !p.slots[r.reply.slot].IsPinned()
  {
    match Choose(p.slots, p.strategy, p.fifo, p.lru)
    case Victim(i, fifo, lru) => Step(Pinned(i), PinSlot(p.(fifo := fifo, lru := lru), i, blk))
    case NoVictim => Step(Exhausted, p)
    case EmptyHistory => Step(ListEmpty, p)
  }

  /** Which slot pin answers with: the resident one on a hit; on a miss an
      unpinned one; null or the list exception only on a miss, the
      exception exactly when the strategy's list is empty. */
  lemma PinReply(p: Pool, blk: Block)
    requires Indexed(p)
    ensures var r := Pin(p, blk);
      && (Find(p.slots, blk).Some? ==> r.reply == Pinned(Find(p.slots, blk).value))
      && (r.reply.Pinned? && Find(p.slots, blk).None? ==> !p.slots[r.reply.slot].IsPinned())
      && (!r.reply.Pinned? ==> Find(p.slots, blk).None?)
      && (r.reply.ListEmpty? <==>
           && Find(p.slots, blk).None?
           && (((p.strategy == Fifo || p.strategy == Clock) && p.fifo == []) || (p.strategy == Lru && p.lru == [])))
  {
  }

  /** pinNew: always takes a victim (never looks for residency), puts the
      newly appended block `newBlk` in it and pins it. The block is what the
      file manager allocates at the end of the file. The arrival list is
      not appended to; only the FIFO policy's own removal changes it. */
  function PinNew(p: Pool, newBlk: Block): (r: Step)
    requires Indexed(p)
    ensures Indexed(r.pool) && r.pool.strategy == p.strategy
    ensures !r.reply.Pinned? ==> r.pool == p
    ensures r.reply.Pinned? ==>
      var i := r.reply.slot;
      && i < |p.slots|
      && !p.slots[i].IsPinned()
      && r.pool.slots == p.slots[i := Slot(Some(newBlk), 1)]
      && r.pool.available == p.available - 1
    ensures r.reply.Pinned? ==> r.pool.fifo == p.fifo || (p.strategy == Fifo && p.fifo != [] && r.pool.fifo == p.fifo[1..])
    ensures r.reply.Pinned? ==> r.pool.lru == p.lru || (p.strategy == Lru && p.lru != [] && r.pool.lru == p.lru[1..])
    ensures p.strategy == Naive ==> (r.reply.Pinned? <==> exists j :: 0 <= j < |p.slots| && !p.slots[j].IsPinned())
  {
    match Choose(p.slots, p.strategy, p.fifo, p.lru)
    case Victim(i, fifo, lru) =>
      var s := p.slots[i].(block := Some(newBlk));
      Step(Pinned(i), p.(slots := p.slots[i := s.(pins := s.pins + 1)], available := p.available - 1, fifo := fifo, lru := lru))
    case NoVictim => Step(Exhausted, p)
    case EmptyHistory => Step(ListEmpty, p)
  }

  /** unpin: drop one pin from slot `i`, record the slot at the tail of the
      recency list, and count it as available again once no pin is left.
      The caller must hold a pin on the slot. */
  function Unpin(p: Pool, i: nat): (q: Pool)
    requires Indexed(p) && i < |p.slots| && p.slots[i].IsPinned()
    ensures Indexed(q) && |q.slots| == |p.slots|
    ensures q.slots[i].block == p.slots[i].block && q.slots[i].pins + 1 == p.slots[i].pins
    ensures forall j :: 0 <= j < |p.slots| && j != i ==> q.slots[j] == p.slots[j]
    ensures q.available == p.available + Free(q.slots[i])
    ensures |q.lru| > 0 && q.lru[|q.lru| - 1] == i && q.lru[..|q.lru| - 1] == Remove(p.lru, i)
    ensures q.fifo == p.fifo && q.strategy == p.strategy
  {
    var s := p.slots[i].(pins := p.slots[i].pins - 1);
    var lru := MoveToTail(p.lru, i);
    MoveToTailBelow(p.lru, i, |p.slots|);
    Pool(p.slots[i := s], if s.IsPinned() then p.available else p.available + 1, p.strategy, p.fifo, lru)
  }

  /** available: the counter, which on a valid pool is the number of
      unpinned slots. */
  function Available(p: Pool): (n: int)
    ensures Valid(p) ==> n == CountUnpinned(p.slots) && 0 <= n <= |p.slots|
    ensures Valid(p) ==> (n == 0 <==> forall j :: 0 <= j < |p.slots| ==> p.slots[j].IsPinned())
  {
    p.available
  }

  /** setStrategy: any integer is accepted; only the strategy changes. */
  function SetStrategy(p: Pool, s: int): (q: Pool)
    ensures q.strategy == s
    ensures q.slots == p.slots && q.available == p.available && q.fifo == p.fifo && q.lru == p.lru
    ensures Valid(p) ==> Valid(q)
  {
    p.(strategy := s)
  }

  /** Replacing slot `i` by `s` keeps residency unique when no other slot
      holds the block `s` holds. */
  lemma UniqueAfterUpdate(slots: seq<Slot>, i: nat, s: Slot)
    requires UniqueResidency(slots) && i < |slots|
    requires s.block.Some? ==> forall j :: 0 <= j < |slots| && j != i ==> slots[j].block != s.block
    ensures UniqueResidency(slots[i := s])
  {
    var t := slots[i := s];
    forall a, b | 0 <= a < b < |t| && t[a].block.Some?
      ensures t[a].block != t[b].block
    {
      if a != i && b != i {
        assert t[a] == slots[a] && t[b] == slots[b];
      }
    }
  }

  /** Under unique residency, a slot holding a block is the only one
      holding it. */
  lemma UniqueOthers(slots: seq<Slot>, i: nat)
    requires UniqueResidency(slots) && i < |slots|
    ensures slots[i].block.Some? ==> forall j :: 0 <= j < |slots| && j != i ==> slots[j].block != slots[i].block
  {
    if slots[i].block.Some? {
      forall j | 0 <= j < |slots| && j != i
        ensures slots[j].block != slots[i].block
      {
        if j < i && slots[j].block.Some? {
          assert slots[j].block != slots[i].block;
        }
      }
    }
  }

  /** The pin step keeps the invariant when no slot other than `i` holds
      `blk`; the slot then occurs exactly once in the arrival list, at its
      tail. */
  lemma PinSlotKeepsValid(q: Pool, i: nat, blk: Block)
    requires Indexed(q) && NoDup(q.fifo) && NoDup(q.lru) && i < |q.slots|
    requires q.available == CountUnpinned(q.slots) && UniqueResidency(q.slots)
    requires forall j :: 0 <= j < |q.slots| && j != i ==> q.slots[j].block != Some(blk)
    ensures var r := PinSlot(q, i, blk);
      && Valid(r)
      && i !in r.fifo[..|r.fifo| - 1]
      && multiset(r.fifo)[i] == 1
  {
    var s := Slot(Some(blk), q.slots[i].pins + 1);
    CountUnpinnedUpdate(q.slots, i, s);
    MoveToTailNoDup(q.fifo, i, |q.slots|);
    UniqueAfterUpdate(q.slots, i, s);
  }

  /** pin keeps the invariant, and after a successful pin the slot occurs
      exactly once in the arrival list, at its tail. */
  lemma PinPreservesValid(p: Pool, blk: Block)
    requires Valid(p)
    ensures Valid(Pin(p, blk).pool)
    ensures var r := Pin(p, blk);
      r.reply.Pinned? ==> r.reply.slot !in r.pool.fifo[..|r.pool.fifo| - 1] && multiset(r.pool.fifo)[r.reply.slot] == 1
  {
    match Find(p.slots, blk)
    case Some(i) =>
      UniqueOthers(p.slots, i);
      PinSlotKeepsValid(p, i, blk);
    case None =>
      ChooseKeepsNoDup(p.slots, p.strategy, p.fifo, p.lru);
      match Choose(p.slots, p.strategy, p.fifo, p.lru)
      case Victim(i, fifo, lru) =>
        PinSlotKeepsValid(p.(fifo := fifo, lru := lru), i, blk);
      case NoVictim =>
      case EmptyHistory =>
  }

  /** How pin changes the two lists: the pinned slot goes to the tail of
      the arrival list (after the FIFO policy took its head), and the
      recency list loses its head only when the LRU policy chose it. */
  lemma PinUpdatesLists(p: Pool, blk: Block)
    requires Indexed(p)
    ensures var r := Pin(p, blk);
      r.reply.Pinned? ==>
        && (r.pool.fifo == MoveToTail(p.fifo, r.reply.slot)
            || (p.strategy == Fifo && p.fifo != [] && r.pool.fifo == MoveToTail(p.fifo[1..], r.reply.slot)))
        && (r.pool.lru == p.lru || (p.strategy == Lru && p.lru != [] && r.pool.lru == p.lru[1..]))
  {
    if Find(p.slots, blk).Some? {
      PinHit(p, blk);
    } else if Choose(p.slots, p.strategy, p.fifo, p.lru).Victim? {
      var c := Choose(p.slots, p.strategy, p.fifo, p.lru);
      PinMiss(p, blk);
      if p.strategy == Fifo {
        assert c.fifo == p.fifo[1..] && c.lru == p.lru;
      } else if p.strategy == Lru {
        assert c.fifo == p.fifo && c.lru == p.lru[1..];
      } else {
        assert c.fifo == p.fifo && c.lru == p.lru;
      }
    } else {
      PinReply(p, blk);
    }
  }

  /** pinNew keeps the invariant, provided the newly appended block is not
      already resident (a block past the end of its file is in no slot). */
  lemma PinNewPreservesValid(p: Pool, newBlk: Block)
    requires Valid(p) && Find(p.slots, newBlk).None?
    ensures Valid(PinNew(p, newBlk).pool)
  {
    ChooseKeepsNoDup(p.slots, p.strategy, p.fifo, p.lru);
    var c := Choose(p.slots, p.strategy, p.fifo, p.lru);
    if c.Victim? {
      var i := c.index;
      var s := Slot(Some(newBlk), 1);
      CountUnpinnedUpdate(p.slots, i, s);
      UniqueAfterUpdate(p.slots, i, s);
      var b := Pool(p.slots[i := s], p.available - 1, p.strategy, c.fifo, c.lru);
      assert Valid(b);
      PinNewShape(p, newBlk);
      assert PinNew(p, newBlk).pool == b;
    } else {
      assert PinNew(p, newBlk).pool == p;
    }
  }

  /** A successful pinNew puts the new block, pinned once, in the victim
      slot and takes over the lists as the policy left them. */
  lemma PinNewShape(p: Pool, newBlk: Block)
    requires Indexed(p)
    ensures var c := Choose(p.slots, p.strategy, p.fifo, p.lru);
      c.Victim? ==>
        PinNew(p, newBlk).pool == Pool(p.slots[c.index := Slot(Some(newBlk), 1)], p.available - 1, p.strategy, c.fifo, c.lru)
  {
  }

  /** unpin keeps the invariant, and afterwards the slot occurs exactly
      once in the recency list, at its tail. */
  lemma UnpinPreservesValid(p: Pool, i: nat)
    requires Valid(p) && i < |p.slots| && p.slots[i].IsPinned()
    ensures Valid(Unpin(p, i))
    ensures var q := Unpin(p, i); i !in q.lru[..|q.lru| - 1] && multiset(q.lru)[i] == 1
  {
    var q := Unpin(p, i);
    var s := p.slots[i].(pins := p.slots[i].pins - 1);
    assert q.slots == p.slots[i := s];
    CountUnpinnedUpdate(p.slots, i, s);
    MoveToTailNoDup(p.lru, i, |p.slots|);
    UniqueAfterUpdate(p.slots, i, s);
  }

  /** Whatever the branch, a successful pin stores `blk` in the slot
      returned with one pin more than it had, and the counter drops exactly
      when that slot had been available. */
  lemma PinStores(p: Pool, blk: Block)
    requires Indexed(p) && Pin(p, blk).reply.Pinned?
    ensures var r := Pin(p, blk);
      var i := r.reply.slot;
      && r.pool.slots == p.slots[i := Slot(Some(blk), p.slots[i].pins + 1)]
      && r.pool.available == p.available - Free(p.slots[i])
      && (Find(p.slots, blk).Some? ==> Find(p.slots, blk) == Some(i))
  {
    if Find(p.slots, blk).Some? {
      HitStores(p, blk);
    } else {
      MissStores(p, blk);
    }
  }

  /** The store of a hit, phrased through the reply. */
  lemma HitStores(p: Pool, blk: Block)
    requires Indexed(p) && Find(p.slots, blk).Some?
    ensures var r := Pin(p, blk);
      var i := r.reply.slot;
      && r.reply == Pinned(Find(p.slots, blk).value)
      && r.pool.slots == p.slots[i := Slot(Some(blk), p.slots[i].pins + 1)]
      && r.pool.available == p.available - Free(p.slots[i])
  {
    var r := Pin(p, blk);
    var i := Find(p.slots, blk).value;
    PinHit(p, blk);
    assert r.reply == Pinned(i);
    assert r.pool.slots == p.slots[i := Slot(Some(blk), p.slots[i].pins + 1)];
    assert r.pool.available == p.available - Free(p.slots[i]);
  }

  /** The store of a successful miss, phrased through the reply: the
      victim had no pins, so it ends up with exactly one. */
  lemma MissStores(p: Pool, blk: Block)
    requires Indexed(p) && Find(p.slots, blk).None? && Pin(p, blk).reply.Pinned?
    ensures var r := Pin(p, blk);
      var i := r.reply.slot;
      && r.pool.slots == p.slots[i := Slot(Some(blk), p.slots[i].pins + 1)]
      && r.pool.available == p.available - Free(p.slots[i])
  {
    var c := Choose(p.slots, p.strategy, p.fifo, p.lru);
    PinMiss(p, blk);
    StoredOnce(p, Pin(p, blk), c.index, blk);
  }

  /** A step that put `blk` with a single pin into the unpinned slot `i`
      is a store of one more pin into the slot it reports. */
  lemma StoredOnce(p: Pool, r: Step, i: nat, blk: Block)
    requires i < |p.slots| && !p.slots[i].IsPinned()
    requires r.reply == Pinned(i) && r.pool.slots == p.slots[i := Slot(Some(blk), 1)]
    requires r.pool.available == p.available - 1
    ensures r.pool.slots == p.slots[r.reply.slot := Slot(Some(blk), p.slots[r.reply.slot].pins + 1)]
    ensures r.pool.available == p.available - Free(p.slots[r.reply.slot])
  {
    assert p.slots[i].pins == 0;
  }

  /** After a successful pin the block is resident in the slot returned,
      which holds one more pin than before. */
  lemma PinMakesResident(p: Pool, blk: Block)
    requires Indexed(p) && Pin(p, blk).reply.Pinned?
    ensures var r := Pin(p, blk);
      && Find(r.pool.slots, blk) == Some(r.reply.slot)
      && r.pool.slots[r.reply.slot].pins == p.slots[r.reply.slot].pins + 1
  {
    var r := Pin(p, blk);
    var i := r.reply.slot;
    var n := p.slots[i].pins;
    PinStores(p, blk);
    assert forall j :: 0 <= j < i ==> p.slots[j].block != Some(blk);
    FindAfterStore(p.slots, blk, i, n + 1);
    assert r.pool.slots[i] == Slot(Some(blk), n + 1);
  }

  /** Pinning the same block again reuses the same slot and raises its pin
      count once more: residency never yields a second slot for one block. */
  lemma PinAgainReusesSlot(p: Pool, blk: Block)
    requires Indexed(p) && Pin(p, blk).reply.Pinned?
    ensures var r1 := Pin(p, blk);
      var r2 := Pin(r1.pool, blk);
      && r2.reply == r1.reply
      && r2.pool.slots[r1.reply.slot].pins == p.slots[r1.reply.slot].pins + 2
  {
    var r1 := Pin(p, blk);
    PinMakesResident(p, blk);
    PinHit(r1.pool, blk);
  }

  /** A hit: the resident slot gains a pin, the counter drops only if the
      slot had been available, the slot moves to the tail of the arrival
      list, and the recency list is untouched. */
  lemma PinHit(p: Pool, blk: Block)
    requires Indexed(p) && Find(p.slots, blk).Some?
    ensures var i := Find(p.slots, blk).value;
      Pin(p, blk) == Step(Pinned(i), Pool(p.slots[i := Slot(Some(blk), p.slots[i].pins + 1)], p.available - Free(p.slots[i]), p.strategy, MoveToTail(p.fifo, i), p.lru))
  {
    var i := Find(p.slots, blk).value;
    assert Pin(p, blk) == Step(Pinned(i), PinSlot(p, i, blk));
    PinSlotShape(p, i, blk);
  }

  /** A miss with a victim: the victim slot receives `blk` with a single
      pin, the counter drops by one, the slot moves to the tail of the
      arrival list (as the policy left it), and the recency list is the
      policy's. */
  lemma PinMiss(p: Pool, blk: Block)
    requires Indexed(p) && Find(p.slots, blk).None?
    requires Choose(p.slots, p.strategy, p.fifo, p.lru).Victim?
    ensures var c := Choose(p.slots, p.strategy, p.fifo, p.lru);
      Pin(p, blk) == Step(Pinned(c.index), Pool(p.slots[c.index := Slot(Some(blk), 1)], p.available - 1, p.strategy, MoveToTail(c.fifo, c.index), c.lru))
  {
    var c := Choose(p.slots, p.strategy, p.fifo, p.lru);
    var i := c.index;
    var q := p.(fifo := c.fifo, lru := c.lru);
    assert c == Victim(i, c.fifo, c.lru);
    assert Pin(p, blk) == Step(Pinned(i), PinSlot(q, i, blk));
    PinSlotShape(q, i, blk);
    assert q.slots[i].pins == 0 && Free(q.slots[i]) == 1;
    assert Slot(Some(blk), q.slots[i].pins + 1) == Slot(Some(blk), 1);
    assert q.slots[i := Slot(Some(blk), q.slots[i].pins + 1)] == p.slots[i := Slot(Some(blk), 1)];
  }

  /** A miss under Naive repurposes the lowest-numbered unpinned slot. */
  lemma NaiveMiss(p: Pool, blk: Block)
    requires Indexed(p) && p.strategy == Naive && Find(p.slots, blk).None?
    requires exists j :: 0 <= j < |p.slots| && !p.slots[j].IsPinned()
    ensures var r := Pin(p, blk);
      && r.reply.Pinned?
      && !p.slots[r.reply.slot].IsPinned()
      && (forall j :: 0 <= j < r.reply.slot ==> p.slots[j].IsPinned())
      && r.pool.slots == p.slots[r.reply.slot := Slot(Some(blk), 1)]
      && r.pool.available == p.available - 1
      && r.pool.fifo == MoveToTail(p.fifo, r.reply.slot)
      && r.pool.lru == p.lru
  {
    var c := Choose(p.slots, p.strategy, p.fifo, p.lru);
    assert c.Victim? && c.fifo == p.fifo && c.lru == p.lru;
    PinMiss(p, blk);
  }

  /** A miss under LRU repurposes the head of the recency list when that
      slot is unpinned, and drops it from the list. */
  lemma LruMiss(p: Pool, blk: Block)
    requires Indexed(p) && p.strategy == Lru && Find(p.slots, blk).None?
    requires p.lru != [] && !p.slots[p.lru[0]].IsPinned()
    ensures var r := Pin(p, blk);
      && r.reply == Pinned(p.lru[0])
      && r.pool.slots == p.slots[p.lru[0] := Slot(Some(blk), 1)]
      && r.pool.available == p.available - 1
      && r.pool.lru == p.lru[1..]
      && r.pool.fifo == MoveToTail(p.fifo, p.lru[0])
  {
    var i := p.lru[0];
    assert TakeHead(p.slots, p.lru) == Picked(i, p.lru[1..]);
    assert Choose(p.slots, p.strategy, p.fifo, p.lru) == Victim(i, p.fifo, p.lru[1..]);
    PinMiss(p, blk);
  }

  /** A miss under FIFO repurposes the head of the arrival list when that
      slot is unpinned, and moves it from the head to the tail. */
  lemma FifoMiss(p: Pool, blk: Block)
    requires Indexed(p) && p.strategy == Fifo && Find(p.slots, blk).None?
    requires p.fifo != [] && !p.slots[p.fifo[0]].IsPinned()
    ensures var r := Pin(p, blk);
      && r.reply == Pinned(p.fifo[0])
      && r.pool.slots == p.slots[p.fifo[0] := Slot(Some(blk), 1)]
      && r.pool.available == p.available - 1
      && r.pool.fifo == MoveToTail(p.fifo[1..], p.fifo[0])
      && r.pool.lru == p.lru
  {
    var i := p.fifo[0];
    assert TakeHead(p.slots, p.fifo) == Picked(i, p.fifo[1..]);
    assert Choose(p.slots, p.strategy, p.fifo, p.lru) == Victim(i, p.fifo[1..], p.lru);
    PinMiss(p, blk);
  }

  /** A miss under Clock repurposes the slot the circular scan finds after
      the tail of the arrival list, leaving both lists as they were before
      the pin's own move to the tail; when the scan finds nothing, pin
      fails and nothing changes. */
  lemma ClockMiss(p: Pool, blk: Block)
    requires Indexed(p) && p.strategy == Clock && Find(p.slots, blk).None? && p.fifo != []
    ensures var v := ClockVictim(p.slots, p.fifo[|p.fifo| - 1]);
      var r := Pin(p, blk);
      && (v.None? ==> r == Step(Exhausted, p))
      && (v.Some? ==>
            && r.reply == Pinned(v.value)
            && r.pool.slots == p.slots[v.value := Slot(Some(blk), 1)]
            && r.pool.available == p.available - 1
            && r.pool.fifo == MoveToTail(p.fifo, v.value)
            && r.pool.lru == p.lru)
  {
    var v := ClockVictim(p.slots, p.fifo[|p.fifo| - 1]);
    var c := Choose(p.slots, p.strategy, p.fifo, p.lru);
    if v.Some? {
      assert c == Victim(v.value, p.fifo, p.lru);
      PinMiss(p, blk);
    } else {
      assert c == NoVictim;
    }
  }

  /** unpin undoes a successful pin: the counter and every pin count are
      back where they were, and the slot keeps `blk` (on a hit it held `blk`
      already, so the slots are exactly as before). */
  lemma PinThenUnpin(p: Pool, blk: Block)
    requires Indexed(p)
    ensures var r := Pin(p, blk);
      r.reply.Pinned? ==>
        var i := r.reply.slot;
        && r.pool.slots[i].pins == p.slots[i].pins + 1
        && var q := Unpin(r.pool, i);
        && q.available == p.available
        && q.slots == p.slots[i := Slot(Some(blk), p.slots[i].pins)]
        && (Find(p.slots, blk).Some? ==> q.slots == p.slots)
  {
    var r := Pin(p, blk);
    if r.reply.Pinned? {
      var i := r.reply.slot;
      var n := p.slots[i].pins;
      PinStores(p, blk);
      assert r.pool.slots[i] == Slot(Some(blk), n + 1);
      UnpinUndoesStore(r.pool, i, p.slots, Some(blk), n);
      var q := Unpin(r.pool, i);
      assert q.available == p.available;
      if Find(p.slots, blk).Some? {
        assert Slot(Some(blk), n) == p.slots[i];
      }
    }
  }

  /** unpin on a slot that a store gave one pin more than `n` takes it back
      to `n`, and the counter rises exactly when `n` is 0. */
  lemma UnpinUndoesStore(r: Pool, i: nat, base: seq<Slot>, b: Option<Block>, n: nat)
    requires Indexed(r) && i < |base| && r.slots == base[i := Slot(b, n + 1)]
    ensures Unpin(r, i).slots == base[i := Slot(b, n)]
    ensures Unpin(r, i).available == r.available + (if n == 0 then 1 else 0)
  {
    assert r.slots[i] == Slot(b, n + 1);
    assert r.slots[i := Slot(b, n)] == base[i := Slot(b, n)];
  }

  /** An unrecognised strategy code selects nothing: on a miss pin and
      pinNew both return null and leave the pool as it was. */
  lemma UnknownStrategyFails(p: Pool, blk: Block)
    requires Indexed(p) && p.strategy !in {Naive, Fifo, Lru, Clock} && Find(p.slots, blk).None?
    ensures Pin(p, blk) == Step(Exhausted, p)
    ensures PinNew(p, blk) == Step(Exhausted, p)
  {
  }

  /** With every slot pinned, a block that is not resident cannot be
      pinned under any strategy, and the pool is left as it was. */
  lemma AllPinnedFails(p: Pool, blk: Block)
    requires Indexed(p) && Find(p.slots, blk).None?
    requires forall j :: 0 <= j < |p.slots| ==> p.slots[j].IsPinned()
    ensures !Pin(p, blk).reply.Pinned? && Pin(p, blk).pool == p
    ensures !PinNew(p, blk).reply.Pinned? && PinNew(p, blk).pool == p
  {
  }

  /** On a freshly built pool switched to FIFO, LRU or Clock, the first pin
      and the first pinNew fail on an empty auxiliary list: those policies
      only work once pins made under the Naive strategy have filled it. */
  lemma FreshPoolNeedsHistory(n: nat, s: int, blk: Block)
    requires s == Fifo || s == Lru || s == Clock
    ensures Pin(SetStrategy(Init(n), s), blk).reply == ListEmpty
    ensures PinNew(SetStrategy(Init(n), s), blk).reply == ListEmpty
  {
    var p := SetStrategy(Init(n), s);
    assert Find(p.slots, blk).None?;
  }
}

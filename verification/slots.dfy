/**
 The slot store of the buffer pool: what one buffer slot holds, how the
 unpinned slots are counted, and the residency lookup that finds the slot
 already holding a given disk block.
 */
module Slots {

  /** The conventional optional value, standing in for a Java `null`. */
  datatype Option<T> = None | Some(value: T)

  /** A disk block: the name of its file and its number within that file.
      Two blocks are the same block exactly when both parts agree. */
  datatype Block = Block(fileName: string, number: int)

  /** One buffer slot: the block whose page it currently holds (if any) and
      how many clients hold a pin on it. */
  datatype Slot = Slot(block: Option<Block>, pins: nat) {
    /** A pinned slot is in use and may never be chosen as a victim. */
    predicate IsPinned() {
      pins > 0
    }
  }

  /** A slot as the pool creates it: no block, no pins. */
  const Unassigned: Slot := Slot(None, 0)

  /** 1 for an unpinned slot, 0 for a pinned one. */
  function Free(s: Slot): nat {
    if s.IsPinned() then 0 else 1
  }

  /** The number of unpinned slots, which the pool's availability counter
      is meant to track. */
  function CountUnpinned(slots: seq<Slot>): (c: nat)
    ensures c <= |slots|
    ensures c == 0 <==> forall i :: 0 <= i < |slots| ==> slots[i].IsPinned()
    ensures c == |slots| <==> forall i :: 0 <= i < |slots| ==> !slots[i].IsPinned()
  {
    if slots == [] then 0
    else
      var c := Free(slots[0]) + CountUnpinned(slots[1..]);
      assert forall i :: 1 <= i < |slots| ==> slots[i] == slots[1..][i - 1];
      c
  }

  /** Replacing one slot changes the unpinned count by exactly the
      difference between the old and the new slot's contribution. */
  lemma {:induction false} CountUnpinnedUpdate(slots: seq<Slot>, i: nat, s: Slot)
    requires i < |slots|
    ensures CountUnpinned(slots[i := s]) + Free(slots[i]) == CountUnpinned(slots) + Free(s)
    decreases i
  {
    if i == 0 {
      assert slots[i := s][1..] == slots[1..];
    } else {
      CountUnpinnedUpdate(slots[1..], i - 1, s);
      assert slots[i := s][1..] == slots[1..][i - 1 := s];
    }
  }

  /** Residency lookup (findExistingBuffer): the first slot whose block is
      `blk`, or None when no slot holds it. */
  function Find(slots: seq<Slot>, blk: Block): (r: Option<nat>)
    ensures r.Some? ==> r.value < |slots| && slots[r.value].block == Some(blk)
    ensures r.Some? ==> forall j :: 0 <= j < r.value ==> slots[j].block != Some(blk)
    ensures r.None? <==> forall j :: 0 <= j < |slots| ==> slots[j].block != Some(blk)
  {
    if slots == [] then None
    else if slots[0].block == Some(blk) then Some(0)
    else
      match Find(slots[1..], blk)
      case None =>
        assert forall j :: 1 <= j < |slots| ==> slots[j] == slots[1..][j - 1];
        None
      case Some(k) =>
        assert forall j :: 1 <= j <= k ==> slots[j] == slots[1..][j - 1];
        Some(k + 1)
  }

  /** No block is resident in two slots. */
  predicate UniqueResidency(slots: seq<Slot>) {
    forall i, j :: 0 <= i < j < |slots| && slots[i].block.Some? ==> slots[i].block != slots[j].block
  }

  /** When residency is unique, the slot the lookup finds is the only one
      holding the block. */
  lemma FindIsOnlyHolder(slots: seq<Slot>, blk: Block, j: nat)
    requires UniqueResidency(slots)
    requires j < |slots| && slots[j].block == Some(blk)
    ensures Find(slots, blk) == Some(j)
  {
  }

  /** Replacing a slot by one that does not hold `blk` cannot make `blk`
      resident. */
  lemma FindNoneAfterUpdate(slots: seq<Slot>, blk: Block, i: nat, s: Slot)
    requires i < |slots| && Find(slots, blk).None? && s.block != Some(blk)
    ensures Find(slots[i := s], blk).None?
  {
  }

  /** Storing `blk` in slot `i`, when no earlier slot holds it, makes the
      lookup find it there. */
  lemma FindAfterStore(slots: seq<Slot>, blk: Block, i: nat, pins: nat)
    requires i < |slots| && forall j :: 0 <= j < i ==> slots[j].block != Some(blk)
    ensures Find(slots[i := Slot(Some(blk), pins)], blk) == Some(i)
  {
    var t := slots[i := Slot(Some(blk), pins)];
    assert forall j :: 0 <= j < i ==> t[j] == slots[j];
    assert t[i].block == Some(blk);
  }
}

/**
 Victim selection (chooseUnpinnedBuffer): the four replacement policies of
 the pool and the dispatch on the configured strategy code. A policy only
 picks a slot and may shorten its own auxiliary list; it never changes a
 slot's block or pin count.
 */
module Policies {
  import opened Slots
  import opened IndexLists

  /** The strategy codes accepted by setStrategy. */
  const Naive: int := 0
  const Fifo: int := 1
  const Lru: int := 2
  const Clock: int := 3

  /** Naive policy: the lowest-numbered unpinned slot, or None when every
      slot is pinned. */
  function NaiveVictim(slots: seq<Slot>): (r: Option<nat>)
    ensures r.Some? ==> r.value < |slots| && !slots[r.value].IsPinned()
    ensures r.Some? ==> forall j :: 0 <= j < r.value ==> slots[j].IsPinned()
    ensures r.None? <==> forall j :: 0 <= j < |slots| ==> slots[j].IsPinned()
  {
    if slots == [] then None
    else if !slots[0].IsPinned() then Some(0)
    else
      match NaiveVictim(slots[1..])
      case None =>
        assert forall j :: 1 <= j < |slots| ==> slots[j] == slots[1..][j - 1];
        None
      case Some(k) =>
        assert forall j :: 1 <= j <= k ==> slots[j] == slots[1..][j - 1];
        Some(k + 1)
  }

  /** What a head-only policy makes of its list. */
  datatype Pick =
    | Picked(index: nat, rest: seq<nat>)  // head was unpinned: chosen, and removed from the list
    | HeadPinned                          // head is pinned: no victim, whatever the other slots are
    | NoHead                              // the list is empty: Java's get(0) throws here

  /** FIFO and LRU policies: both look at the head of their list only. If
      that slot is unpinned it is removed from the list and returned;
      otherwise there is no victim and the list stays as it was. */
  function TakeHead(slots: seq<Slot>, order: seq<nat>): (r: Pick)
    requires Below(order, |slots|)
    ensures r.NoHead? <==> order == []
    ensures r.Picked? ==> r.index < |slots| && !slots[r.index].IsPinned()
    ensures r.Picked? ==> r.index == order[0] && r.rest == order[1..]
    ensures r.HeadPinned? ==> slots[order[0]].IsPinned()
  {
    if order == [] then NoHead
    else if !slots[order[0]].IsPinned() then
      assert IndexOf(order, order[0]) == 0;
      Picked(order[0], Remove(order, order[0]))
    else HeadPinned
  }

  /** Head-only: the outcome depends on no slot other than the head's,
      so an unpinned slot further down the list or elsewhere in the pool
      is never a reason to pick. */
  lemma TakeHeadIgnoresOtherSlots(slots: seq<Slot>, other: seq<Slot>, order: seq<nat>)
    requires |slots| == |other| && Below(order, |slots|)
    requires order != [] ==> slots[order[0]].IsPinned() == other[order[0]].IsPinned()
    ensures TakeHead(slots, order) == TakeHead(other, order)
  {
  }

  /** Forward distance from `start` to `j` on a circle of `n` slots; the
      start itself is a whole turn away. */
  function Dist(n: nat, start: nat, j: nat): nat
    requires start < n && j < n
  {
    if j > start then j - start else j + n - start
  }

  /** The slot the Clock scan probes `k` steps after `start`, wrapping
      modulo the number of slots. */
  function Probe(n: nat, start: nat, k: nat): nat
    requires n > 0
  {
    (start + k) % n
  }

  /** Remainders of values below twice the modulus. */
  lemma ModSmall(a: nat, n: nat)
    requires 0 < n && a < 2 * n
    ensures a % n == if a < n then a else a - n
  {
  }

  lemma ProbeUnfold(n: nat, start: nat, k: nat)
    requires start < n && k <= n
    ensures Probe(n, start, k) == if start + k < n then start + k else start + k - n
    ensures Probe(n, start, k) == start <==> k == 0 || k == n
    ensures 0 < k < n ==> Dist(n, start, Probe(n, start, k)) == k
  {
    ModSmall(start + k, n);
  }

  /** The Clock scan from step `k` on: the first unpinned slot probed,
      stopping once the scan has come round to `start` again. */
  function ClockScan(slots: seq<Slot>, start: nat, k: nat): (r: Option<nat>)
    requires start < |slots| && 1 <= k <= |slots|
    ensures r.Some? ==> r.value < |slots| && r.value != start && !slots[r.value].IsPinned()
    ensures r.Some? ==> k <= Dist(|slots|, start, r.value)
    ensures r.Some? ==> forall j :: 0 <= j < |slots| && k <= Dist(|slots|, start, j) < Dist(|slots|, start, r.value) ==> slots[j].IsPinned()
    ensures r.None? <==> forall j :: 0 <= j < |slots| && k <= Dist(|slots|, start, j) < |slots| ==> slots[j].IsPinned()
    decreases |slots| - k
  {
    ProbeUnfold(|slots|, start, k);
    var j := Probe(|slots|, start, k);
    if j == start then None
    else if !slots[j].IsPinned() then Some(j)
    else ClockScan(slots, start, k + 1)
  }

  /** Clock policy, with the scan wrapping modulo the number of slots
      (the source wraps modulo one more than that; see ClockAsWritten).
      The result is the first unpinned slot met going forward round the
      circle from just after `start`; `start` itself is never returned. */
  function ClockVictim(slots: seq<Slot>, start: nat): (r: Option<nat>)
    requires start < |slots|
    ensures r.Some? ==> r.value < |slots| && r.value != start && !slots[r.value].IsPinned()
    ensures r.Some? ==> forall j :: 0 <= j < |slots| && j != start && Dist(|slots|, start, j) < Dist(|slots|, start, r.value) ==> slots[j].IsPinned()
    ensures r.None? <==> forall j :: 0 <= j < |slots| && j != start ==> slots[j].IsPinned()
  {
    ClockScan(slots, start, 1)
  }

  /** Outcome of the Clock scan exactly as the source writes it. */
  datatype Scan = Found(index: nat) | NotFound | OutOfBounds(index: nat)

  /** The source's Clock loop from scan index `s` on: each index is reduced
      modulo one more than the number of slots before the array is read,
      so the value equal to the number of slots is probed too, which makes
      Java throw an out-of-bounds exception (OutOfBounds). */
  function ClockAsWrittenFrom(slots: seq<Slot>, start: nat, s: nat): (r: Scan)
    requires start < s <= |slots|
    ensures r.Found? ==> s <= r.index < |slots| && !slots[r.index].IsPinned()
    ensures r.OutOfBounds? ==> r.index == |slots|
    ensures !r.NotFound?
    decreases |slots| - s
  {
    ModSmall(s, |slots| + 1);
    var m := s % (|slots| + 1);
    if m == start then NotFound
    else if m >= |slots| then OutOfBounds(m)
    else if !slots[m].IsPinned() then Found(m)
    else ClockAsWrittenFrom(slots, start, s + 1)
  }

  /** The source's Clock policy as written, starting after `start`. */
  function ClockAsWritten(slots: seq<Slot>, start: nat): (r: Scan)
    requires start < |slots|
    ensures r.Found? ==> r.index < |slots| && r.index != start && !slots[r.index].IsPinned()
    ensures r.OutOfBounds? ==> r.index == |slots|
  {
    ClockAsWrittenLemma(slots, start, start + 1);
    ClockAsWrittenFrom(slots, start, start + 1)
  }

  lemma {:induction false} ClockAsWrittenLemma(slots: seq<Slot>, start: nat, s: nat)
    requires start < s <= |slots|
    ensures var r := ClockAsWrittenFrom(slots, start, s);
      || (r.Found? && s <= r.index < |slots| && !slots[r.index].IsPinned()
          && forall j :: s <= j < r.index ==> slots[j].IsPinned())
      || (r == OutOfBounds(|slots|) && forall j :: s <= j < |slots| ==> slots[j].IsPinned())
    decreases |slots| - s
  {
    var r := ClockAsWrittenFrom(slots, start, s);
    ModSmall(s, |slots| + 1);
    if s == |slots| {
      assert r == OutOfBounds(|slots|);
    } else if !slots[s].IsPinned() {
      assert r == Found(s);
    } else {
      ClockAsWrittenLemma(slots, start, s + 1);
      assert r == ClockAsWrittenFrom(slots, start, s + 1);
    }
  }

  /** The literal scan never wraps round: it either finds what the
      corrected scan finds (an unpinned slot above `start`) or, once every
      slot above `start` is pinned, reads one past the end of the pool. */
  lemma ClockAsWrittenNeverWraps(slots: seq<Slot>, start: nat)
    requires start < |slots|
    ensures var r := ClockAsWritten(slots, start);
      || (r.Found? && start < r.index && ClockVictim(slots, start) == Some(r.index))
      || (r == OutOfBounds(|slots|) && forall j :: start < j < |slots| ==> slots[j].IsPinned())
  {
    ClockAsWrittenLemma(slots, start, start + 1);
    var r := ClockAsWritten(slots, start);
    if r.Found? {
      var v := ClockVictim(slots, start);
      assert Dist(|slots|, start, r.index) == r.index - start;
      assert v.Some?;
      assert Dist(|slots|, start, v.value) <= Dist(|slots|, start, r.index);
    }
  }

  /** The smallest input on which the literal scan fails: two free slots,
      scanning after slot 1. The literal code reads slot 2, which does not
      exist; the corrected scan wraps to slot 0. */
  lemma ClockAsWrittenOverruns()
    ensures ClockAsWritten([Unassigned, Unassigned], 1) == OutOfBounds(2)
    ensures ClockVictim([Unassigned, Unassigned], 1) == Some(0)
  {
    ClockAsWrittenNeverWraps([Unassigned, Unassigned], 1);
  }

  /** What victim selection returns: a slot together with the auxiliary
      lists as the policy leaves them, no victim, or failure on an empty
      auxiliary list (where Java's list access throws). */
  datatype Selection =
    | Victim(index: nat, fifo: seq<nat>, lru: seq<nat>)
    | NoVictim
    | EmptyHistory

  /** chooseUnpinnedBuffer: dispatch on the strategy code. An unrecognised
      code selects nothing. */
  function Choose(slots: seq<Slot>, strategy: int, fifo: seq<nat>, lru: seq<nat>): (r: Selection)
    requires Below(fifo, |slots|) && Below(lru, |slots|)
    ensures r.Victim? ==> r.index < |slots| && !slots[r.index].IsPinned()
    ensures r.Victim? ==> Below(r.fifo, |slots|) && Below(r.lru, |slots|)
    ensures r.EmptyHistory? <==> ((strategy == Fifo || strategy == Clock) && fifo == []) || (strategy == Lru && lru == [])
    ensures strategy !in {Naive, Fifo, Lru, Clock} ==> r.NoVictim?
    ensures strategy == Naive ==> (r.Victim? <==> exists j :: 0 <= j < |slots| && !slots[j].IsPinned())
    ensures r.Victim? && strategy == Naive ==> forall j :: 0 <= j < r.index ==> slots[j].IsPinned()
    ensures r.Victim? && strategy == Fifo ==> r.index == fifo[0] && r.fifo == fifo[1..]
    ensures r.Victim? && strategy == Lru ==> r.index == lru[0] && r.lru == lru[1..]
    ensures r.Victim? && strategy != Fifo ==> r.fifo == fifo
    ensures r.Victim? && strategy != Lru ==> r.lru == lru
    ensures r.Victim? && strategy == Clock ==> r.index != fifo[|fifo| - 1]
    ensures strategy == Fifo && fifo != [] ==> (r.Victim? <==> !slots[fifo[0]].IsPinned())
    ensures strategy == Lru && lru != [] ==> (r.Victim? <==> !slots[lru[0]].IsPinned())
    ensures strategy == Clock && fifo != [] ==>
      var v := ClockVictim(slots, fifo[|fifo| - 1]);
      (r.Victim? <==> v.Some?) && (r.Victim? ==> r.index == v.value)
  {
    if strategy == Naive then
      match NaiveVictim(slots)
      case Some(j) => Victim(j, fifo, lru)
      case None => NoVictim
    else if strategy == Fifo then
      match TakeHead(slots, fifo)
      case Picked(j, rest) => Victim(j, rest, lru)
      case HeadPinned => NoVictim
      case NoHead => EmptyHistory
    else if strategy == Lru then
      match TakeHead(slots, lru)
      case Picked(j, rest) => Victim(j, fifo, rest)
      case HeadPinned => NoVictim
      case NoHead => EmptyHistory
    else if strategy == Clock then
      if fifo == [] then EmptyHistory
      else
        match ClockVictim(slots, fifo[|fifo| - 1])
        case Some(j) => Victim(j, fifo, lru)
        case None => NoVictim
    else NoVictim
  }

  /** Selection keeps both auxiliary lists duplicate-free. */
  lemma ChooseKeepsNoDup(slots: seq<Slot>, strategy: int, fifo: seq<nat>, lru: seq<nat>)
    requires Below(fifo, |slots|) && Below(lru, |slots|) && NoDup(fifo) && NoDup(lru)
    ensures var r := Choose(slots, strategy, fifo, lru);
      r.Victim? ==> NoDup(r.fifo) && NoDup(r.lru)
  {
    if fifo != [] {
      TailNoDup(fifo, |slots|);
    }
    if lru != [] {
      TailNoDup(lru, |slots|);
    }
  }
}

/**
 The two auxiliary lists of slot indices the pool keeps: the arrival-order
 list (appended on every pin) and the recency list (appended on every unpin).
 Both are Java array lists of integers; here they are sequences of slot
 indices with the list operations the pool uses.
 */
module IndexLists {

  /** Every index occurs at most once. */
  predicate NoDup(s: seq<nat>) {
    forall i, j :: 0 <= i < j < |s| ==> s[i] != s[j]
  }

  /** Every index names a slot of a pool with `n` slots. */
  predicate Below(s: seq<nat>, n: nat) {
    forall i :: 0 <= i < |s| ==> s[i] < n
  }

  /** List.indexOf: the position of the first occurrence of x, or -1. */
  function IndexOf(s: seq<nat>, x: nat): (k: int)
    ensures -1 <= k < |s|
    ensures k >= 0 ==> s[k] == x && x !in s[..k]
    ensures k == -1 <==> x !in s
  {
    if s == [] then -1
    else if s[0] == x then 0
    else
      var k := IndexOf(s[1..], x);
      if k == -1 then -1
      else
        assert s[..k + 1] == [s[0]] + s[1..][..k];
        k + 1
  }

  /** List.remove(Object): the first occurrence of x dropped, every other
      element kept in order; the list is returned as is when x is absent. */
  function Remove(s: seq<nat>, x: nat): (r: seq<nat>)
    ensures x !in s ==> r == s
    ensures x in s ==> |r| == |s| - 1
  {
    var k := IndexOf(s, x);
    if k < 0 then s
    else s[..k] + s[k + 1..]
  }

  /** Removal takes exactly one occurrence of x out of the list's
      multiset, and none when x is absent. */
  lemma RemoveMultiset(s: seq<nat>, x: nat)
    ensures multiset(Remove(s, x)) == multiset(s) - multiset{x}
  {
    var k := IndexOf(s, x);
    if k >= 0 {
      assert s == s[..k] + [s[k]] + s[k + 1..];
    }
  }

  /** On a duplicate-free list, removal takes x out completely and keeps
      the list duplicate-free and within range. */
  lemma RemoveNoDup(s: seq<nat>, x: nat, n: nat)
    requires NoDup(s) && Below(s, n)
    ensures NoDup(Remove(s, x)) && Below(Remove(s, x), n)
    ensures x !in Remove(s, x)
  {
    var k := IndexOf(s, x);
    if k >= 0 {
      var r := Remove(s, x);
      assert forall a :: 0 <= a < |r| ==> r[a] == s[if a < k then a else a + 1];
    }
  }

  /** Removal keeps a list within range. */
  lemma RemoveBelow(s: seq<nat>, x: nat, n: nat)
    requires Below(s, n)
    ensures Below(Remove(s, x), n)
  {
    var k := IndexOf(s, x);
    if k >= 0 {
      var l, h := s[..k], s[k + 1..];
      assert Remove(s, x) == l + h;
      assert Below(l, n) && Below(h, n);
    }
  }

  /** Re-appending keeps a list within range. */
  lemma MoveToTailBelow(s: seq<nat>, x: nat, n: nat)
    requires Below(s, n) && x < n
    ensures Below(MoveToTail(s, x), n)
  {
    RemoveBelow(s, x, n);
    var r := Remove(s, x);
    var t := MoveToTail(s, x);
    assert t == r + [x];
  }

  /** The update the pool applies to a list on pin (arrival list) and on
      unpin (recency list): drop x if present, then append it at the tail. */
  function MoveToTail(s: seq<nat>, x: nat): (r: seq<nat>)
    ensures |r| > 0 && r[|r| - 1] == x
    ensures r[..|r| - 1] == Remove(s, x)
  {
    var r := Remove(s, x) + [x];
    assert r[..|r| - 1] == Remove(s, x);
    r
  }

  /** The update keeps the list's multiset, with x present at least once. */
  lemma MoveToTailMultiset(s: seq<nat>, x: nat)
    ensures multiset(MoveToTail(s, x)) == multiset(s) - multiset{x} + multiset{x}
  {
    RemoveMultiset(s, x);
    assert MoveToTail(s, x) == Remove(s, x) + [x];
  }

  /** An index not yet in the list is simply appended. */
  lemma MoveToTailAbsent(s: seq<nat>, x: nat)
    requires x !in s
    ensures MoveToTail(s, x) == s + [x]
  {
  }

  /** An index first found at position k is cut out there and appended. */
  lemma MoveToTailFrom(s: seq<nat>, x: nat, k: nat)
    requires k < |s| && s[k] == x && x !in s[..k]
    ensures MoveToTail(s, x) == s[..k] + s[k + 1..] + [x]
  {
    assert IndexOf(s, x) == k;
  }

  /** After the update x sits at the tail exactly once, and the list stays
      duplicate-free and within range. */
  lemma MoveToTailNoDup(s: seq<nat>, x: nat, n: nat)
    requires NoDup(s) && Below(s, n) && x < n
    ensures var r := MoveToTail(s, x);
      && NoDup(r) && Below(r, n)
      && x !in r[..|r| - 1]
      && multiset(r)[x] == 1
  {
    RemoveNoDup(s, x, n);
    var d := Remove(s, x);
    var r := MoveToTail(s, x);
    assert r == d + [x];
    assert forall i :: 0 <= i < |d| ==> r[i] == d[i] && d[i] != x;
    assert NoDup(r);
    assert multiset(r) == multiset(d) + multiset{x};
  }

  /** Dropping the head of a duplicate-free list removes its only
      occurrence and keeps the rest duplicate-free. */
  lemma TailNoDup(s: seq<nat>, n: nat)
    requires s != [] && NoDup(s) && Below(s, n)
    ensures NoDup(s[1..]) && Below(s[1..], n) && s[0] !in s[1..]
  {
  }
}

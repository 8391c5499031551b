/** The quadrant lock discipline of `car_cross`: lock the quadrant of every
    non-zero slot p[0..3] in index order, cross, then unlock them walking the
    slots from 3 down to 0. The set `held` stands for the quadrant mutexes the
    crossing thread owns; locking a quadrant already in it, or unlocking one
    not in it, would be the fatal double-lock / stray-unlock the discipline
    must rule out. */
module Locks {
  import opened Traffic
  import opened Path

  /** Slots of the path array the lock loops visit (p[0..3]). */
  const LockedSlots: nat := 4

  predicate StrictlyAscending(s: seq<int>)
  {
    forall i, j :: 0 <= i < j < |s| ==> s[i] < s[j]
  }

  predicate StrictlyDescending(s: seq<int>)
  {
    forall i, j :: 0 <= i < j < |s| ==> s[i] > s[j]
  }

  /** The lock loop of `car_cross`, starting with no quadrant held. Returns
      the quadrants in the order they were locked and the set held after the
      loop. */
  method AcquirePath(p: seq<int>) returns (held: set<int>, order: seq<int>)
    requires IsPath(p)
    ensures order == p[..PathLength(p)]
    ensures StrictlyAscending(order)
    ensures forall q :: q in held <==> q in order
    ensures forall q :: q in held <==> q in p && q != 0
    ensures forall q :: q in held ==> 1 <= q <= Quadrants
    ensures |held| == |order|
  {
    held, order := {}, [];
    var n := PathLength(p);
    var i := 0;
    while i < LockedSlots
      invariant 0 <= i <= LockedSlots
      invariant order == p[..if i < n then i else n]
      invariant forall q :: q in held <==> q in order
      invariant |held| == |order|
    {
      if p[i] != 0 {
        // never lock a quadrant this thread already holds
        assert forall k :: 0 <= k < |order| ==> order[k] < p[i];
        assert p[i] !in held;
        held := held + {p[i]};
        order := order + [p[i]];
      }
      i := i + 1;
    }
    assert order == p[..n];
    forall q | q in p && q != 0
      ensures q in order
    {
      var k :| 0 <= k < |p| && p[k] == q;
      assert k < n;
      assert order[k] == q;
    }
  }

  /** The unlock loop of `car_cross`, starting from the set the lock loop
      left. Returns the quadrants in the order they were unlocked and the set
      still held afterwards. */
  method ReleasePath(p: seq<int>, held: set<int>) returns (rest: set<int>, order: seq<int>)
    requires IsPath(p)
    requires forall q :: q in held <==> q in p && q != 0
    ensures rest == {}
    ensures order == Reverse(p[..PathLength(p)])
    ensures StrictlyDescending(order)
    ensures forall q :: q in order <==> q in held
  {
    rest, order := held, [];
    var n := PathLength(p);
    var i := LockedSlots - 1;
    while i >= 0
      invariant -1 <= i < LockedSlots
      invariant |order| == if i + 1 < n then n - (i + 1) else 0
      invariant forall k :: 0 <= k < |order| ==> order[k] == p[n - 1 - k]
      invariant forall q :: q in rest <==> exists k :: 0 <= k <= i && k < n && p[k] == q
    {
      if p[i] != 0 {
        // never unlock a quadrant this thread does not hold
        assert p[i] in rest;
        rest := rest - {p[i]};
        order := order + [p[i]];
      }
      i := i - 1;
    }
    forall k | 0 <= k < n
      ensures Reverse(p[..n])[k] == order[k]
    {
      ReverseAt(p[..n], k);
    }
    assert forall q :: q in rest ==> false;
    forall q | q in held
      ensures q in order
    {
      var k :| 0 <= k < |p| && p[k] == q;
      assert order[n - 1 - k] == q;
    }
  }
}

/**
 * Lock acquisition traces.
 *
 * Every account of the bank carries its own reentrant lock. Threads are not
 * modelled; instead each operation reports, as a ghost value, the sequence of
 * lock and unlock events it performs, in program order. The deadlock-avoidance
 * rule of the bank is a plain fact about these sequences: whenever an
 * operation holds several locks, it acquired them in ascending index order.
 */
module Locks {

  /** One step of the locking protocol on the account with the given index. */
  datatype LockEvent = Lock(index: nat) | Unlock(index: nat)

  /** The indices locked by a trace, in the order they were locked. */
  function Acquired(t: seq<LockEvent>): seq<nat>
  {
    if t == [] then []
    else (if t[0].Lock? then [t[0].index] else []) + Acquired(t[1..])
  }

  /** The indices unlocked by a trace, in the order they were unlocked. */
  function Released(t: seq<LockEvent>): seq<nat>
  {
    if t == [] then []
    else (if t[0].Unlock? then [t[0].index] else []) + Released(t[1..])
  }

  predicate Ascending(s: seq<nat>)
  {
    forall i, j :: 0 <= i < j < |s| ==> s[i] < s[j]
  }

  /** `x` is locked before `y` in the acquisition order `s`. */
  predicate OrderedBefore(s: seq<nat>, x: nat, y: nat)
  {
    exists i, j :: 0 <= i < j < |s| && s[i] == x && s[j] == y
  }

  /**
   * The sequential core of deadlock avoidance: two operations that both lock
   * in ascending order never lock some pair of accounts in opposite orders,
   * so no cycle of waiting threads can form between them.
   */
  lemma NoOppositeOrders(s1: seq<nat>, s2: seq<nat>, x: nat, y: nat)
    requires Ascending(s1) && Ascending(s2)
    ensures !(OrderedBefore(s1, x, y) && OrderedBefore(s2, y, x))
  {
  }

  lemma {:induction false} AcquiredAppend(a: seq<LockEvent>, b: seq<LockEvent>)
    ensures Acquired(a + b) == Acquired(a) + Acquired(b)
  {
    if a == [] {
      assert a + b == b;
    } else {
      var ab := a + b;
      assert ab[0] == a[0] && ab[1..] == a[1..] + b;
      AcquiredAppend(a[1..], b);
      var head := if a[0].Lock? then [a[0].index] else [];
      calc {
        Acquired(ab);
        head + Acquired(a[1..] + b);
        head + (Acquired(a[1..]) + Acquired(b));
        (head + Acquired(a[1..])) + Acquired(b);
      }
    }
  }

  lemma {:induction false} ReleasedAppend(a: seq<LockEvent>, b: seq<LockEvent>)
    ensures Released(a + b) == Released(a) + Released(b)
  {
    if a == [] {
      assert a + b == b;
    } else {
      var ab := a + b;
      assert ab[0] == a[0] && ab[1..] == a[1..] + b;
      ReleasedAppend(a[1..], b);
      var head := if a[0].Unlock? then [a[0].index] else [];
      calc {
        Released(ab);
        head + Released(a[1..] + b);
        head + (Released(a[1..]) + Released(b));
        (head + Released(a[1..])) + Released(b);
      }
    }
  }

  /** The lock and unlock orders of two traces run one after the other. */
  lemma AcquiredReleasedAppend(a: seq<LockEvent>, b: seq<LockEvent>)
    ensures Acquired(a + b) == Acquired(a) + Acquired(b)
    ensures Released(a + b) == Released(a) + Released(b)
  {
    AcquiredAppend(a, b);
    ReleasedAppend(a, b);
  }

  lemma {:induction false} PairEvents(x: nat, y: nat)
    ensures Acquired([Lock(x), Lock(y)]) == [x, y] && Released([Lock(x), Lock(y)]) == []
    ensures Acquired([Unlock(x), Unlock(y)]) == [] && Released([Unlock(x), Unlock(y)]) == [x, y]
  {
    var locked, unlocked := [Lock(x), Lock(y)], [Unlock(x), Unlock(y)];
    assert locked[1..] == [Lock(y)] && locked[1..][1..] == [];
    assert Acquired(locked[1..]) == [y] && Released(locked[1..]) == [];
    assert unlocked[1..] == [Unlock(y)] && unlocked[1..][1..] == [];
    assert Acquired(unlocked[1..]) == [] && Released(unlocked[1..]) == [y];
  }

  /** Locks accounts 0, 1, ..., n-1, one after the other. */
  function LockAll(n: nat): seq<LockEvent>
  {
    if n == 0 then [] else LockAll(n - 1) + [Lock(n - 1)]
  }

  /** Unlocks accounts hi-1, hi-2, ..., lo, one after the other. */
  function UnlockDown(lo: nat, hi: nat): seq<LockEvent>
    decreases hi - lo
  {
    if lo >= hi then [] else UnlockDown(lo + 1, hi) + [Unlock(lo)]
  }

  /** The trace of the whole-ledger sum over n accounts. */
  function TotalLocks(n: nat): seq<LockEvent>
  {
    LockAll(n) + UnlockDown(0, n)
  }

  lemma {:induction false} LockAllEvents(n: nat)
    ensures |Acquired(LockAll(n))| == n
    ensures forall k :: 0 <= k < n ==> Acquired(LockAll(n))[k] == k
    ensures Released(LockAll(n)) == []
  {
    if n > 0 {
      LockAllEvents(n - 1);
      AcquiredReleasedAppend(LockAll(n - 1), [Lock(n - 1)]);
      assert [Lock(n - 1)][1..] == [];
    }
  }

  lemma {:induction false} UnlockDownEvents(lo: nat, hi: nat)
    ensures Acquired(UnlockDown(lo, hi)) == []
    ensures lo <= hi ==> |Released(UnlockDown(lo, hi))| == hi - lo
    ensures forall k :: 0 <= k < hi - lo ==> Released(UnlockDown(lo, hi))[k] == hi - 1 - k
    decreases hi - lo
  {
    if lo < hi {
      UnlockDownEvents(lo + 1, hi);
      AcquiredReleasedAppend(UnlockDown(lo + 1, hi), [Unlock(lo)]);
      assert [Unlock(lo)][1..] == [];
    }
  }

  /**
   * The whole-ledger sum locks every account in ascending index order and
   * then unlocks them all in descending index order.
   */
  lemma TotalLockOrder(n: nat)
    ensures |Acquired(TotalLocks(n))| == n
    ensures forall k :: 0 <= k < n ==> Acquired(TotalLocks(n))[k] == k
    ensures Ascending(Acquired(TotalLocks(n)))
    ensures |Released(TotalLocks(n))| == n
    ensures forall k :: 0 <= k < n ==> Released(TotalLocks(n))[k] == n - 1 - k
  {
    LockAllEvents(n);
    UnlockDownEvents(0, n);
    AcquiredReleasedAppend(LockAll(n), UnlockDown(0, n));
    assert Acquired(TotalLocks(n)) == Acquired(LockAll(n));
    assert Released(TotalLocks(n)) == Released(UnlockDown(0, n));
  }
}

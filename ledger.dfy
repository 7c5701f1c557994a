/**
 * The ledger as a value: the balances of the accounts, indexed 0..N-1, and
 * what each balance-changing operation of the bank does to them.
 *
 * Each operation is given as a function from the balances before the call to
 * a Step: the outcome the caller sees (a result, or one of the three errors
 * the bank throws), the balances after the call, and the lock events the
 * call performs. The class in bank.dfy is proved to behave exactly like these
 * functions; the lemmas below state what the bank promises about them.
 */
module Ledger {
  import opened Locks

  /**
   * Largest balance a single account may hold. The interface that declares it
   * is not part of this model; 1000 is an illustrative value. No lemma depends
   * on the value; only the scenario in bank.dfy uses it.
   */
  const MAX_AMOUNT: int := 1000

  /** IllegalArgumentException("Invalid amount" / "fromIndex == toIndex"),
      IllegalStateException("Underflow") and IllegalStateException("Overflow"). */
  datatype Error = InvalidArgument | Underflow | Overflow

  datatype Outcome<T> = Ok(value: T) | Fail(error: Error)

  datatype Step<T> = Step(outcome: Outcome<T>, balances: seq<int>, locks: seq<LockEvent>)

  /** The bank's invariant: every balance lies in 0..MAX_AMOUNT. */
  predicate InRange(s: seq<int>)
  {
    forall i :: 0 <= i < |s| ==> 0 <= s[i] <= MAX_AMOUNT
  }

  /** The total of the balances, accumulated from index 0 upwards. */
  function Sum(s: seq<int>): int
  {
    if s == [] then 0 else Sum(s[..|s| - 1]) + s[|s| - 1]
  }

  /** Changing one balance changes the total by the difference. */
  lemma {:induction false} SumUpdate(s: seq<int>, i: nat, v: int)
    requires i < |s|
    ensures Sum(s[i := v]) == Sum(s) - s[i] + v
  {
    var n := |s| - 1;
    if i == n {
      assert s[i := v][..n] == s[..n];
    } else {
      SumUpdate(s[..n], i, v);
      assert s[i := v][..n] == s[..n][i := v];
    }
  }

  /** Setting one balance to an in-range value keeps the ledger in range and moves the total by the difference. */
  lemma SetBalance(s: seq<int>, t: seq<int>, i: nat, v: int)
    requires i < |s| && t == s[i := v]
    requires InRange(s) && 0 <= v <= MAX_AMOUNT
    ensures InRange(t) && Sum(t) == Sum(s) - s[i] + v
  {
    SumUpdate(s, i, v);
  }

  /** Moving an amount the source holds to a destination with room for it keeps the ledger in range and its total. */
  lemma MoveBetween(s: seq<int>, t: seq<int>, i: nat, j: nat, amount: int)
    requires i < |s| && j < |s| && i != j && InRange(s)
    requires 0 <= amount <= s[i] && s[j] + amount <= MAX_AMOUNT
    requires t == s[i := s[i] - amount][j := s[j] + amount]
    ensures InRange(t) && Sum(t) == Sum(s)
  {
    var debited := s[i := s[i] - amount];
    SetBalance(s, debited, i, s[i] - amount);
    SetBalance(debited, t, j, s[j] + amount);
  }

  // ---------------------------------------------------------------- deposit

  function DepositStep(s: seq<int>, index: nat, amount: int): Step<int>
    requires index < |s|
  {
    if amount <= 0 then Step(Fail(InvalidArgument), s, [])
    else if amount > MAX_AMOUNT || s[index] + amount > MAX_AMOUNT then
      Step(Fail(Overflow), s, [Lock(index)])
    else
      Step(Ok(s[index] + amount), s[index := s[index] + amount], [Lock(index), Unlock(index)])
  }

  /**
   * A deposit is refused as an invalid argument exactly when the amount is
   * not positive, and otherwise as an overflow exactly when the amount or the
   * new balance would exceed MAX_AMOUNT; it never underflows. On success the
   * account grows by the amount and the new balance is returned.
   */
  lemma DepositOutcome(s: seq<int>, index: nat, amount: int)
    requires index < |s|
    ensures var r := DepositStep(s, index, amount);
      && (r.outcome == Fail(InvalidArgument) <==> amount <= 0)
      && (r.outcome == Fail(Overflow) <==>
            0 < amount && (amount > MAX_AMOUNT || s[index] + amount > MAX_AMOUNT))
      && r.outcome != Fail(Underflow)
      && (r.outcome.Fail? ==> r.balances == s)
      && (r.outcome.Ok? ==>
            r.balances == s[index := s[index] + amount] &&
            r.outcome.value == s[index] + amount)
  {
  }

  /** A deposit keeps every balance in range and adds exactly the deposited amount to the total. */
  lemma {:induction false} DepositInvariants(s: seq<int>, index: nat, amount: int)
    requires index < |s| && InRange(s)
    ensures var r := DepositStep(s, index, amount);
      && InRange(r.balances)
      && Sum(r.balances) == Sum(s) + (if r.outcome.Ok? then amount else 0)
  {
    var r := DepositStep(s, index, amount);
    if amount <= 0 || amount > MAX_AMOUNT || s[index] + amount > MAX_AMOUNT {
      assert r.outcome.Fail? && r.balances == s;
    } else {
      assert r.outcome.Ok? && r.balances == s[index := s[index] + amount];
      SetBalance(s, r.balances, index, s[index] + amount);
    }
  }

  // --------------------------------------------------------------- withdraw

  function WithdrawStep(s: seq<int>, index: nat, amount: int): Step<int>
    requires index < |s|
  {
    if amount <= 0 then Step(Fail(InvalidArgument), s, [])
    else if s[index] - amount < 0 then Step(Fail(Underflow), s, [Lock(index)])
    else
      Step(Ok(s[index] - amount), s[index := s[index] - amount], [Lock(index), Unlock(index)])
  }

  /**
   * A withdrawal is refused as an invalid argument exactly when the amount is
   * not positive, and otherwise as an underflow exactly when it exceeds the
   * balance; it never overflows. On success the account shrinks by the amount
   * and the new balance is returned.
   */
  lemma WithdrawOutcome(s: seq<int>, index: nat, amount: int)
    requires index < |s|
    ensures var r := WithdrawStep(s, index, amount);
      && (r.outcome == Fail(InvalidArgument) <==> amount <= 0)
      && (r.outcome == Fail(Underflow) <==> 0 < amount && amount > s[index])
      && r.outcome != Fail(Overflow)
      && (r.outcome.Fail? ==> r.balances == s)
      && (r.outcome.Ok? ==>
            r.balances == s[index := s[index] - amount] &&
            r.outcome.value == s[index] - amount)
  {
  }

  /** Withdrawing the whole (positive) balance is allowed and leaves zero. */
  lemma WithdrawWholeBalance(s: seq<int>, index: nat)
    requires index < |s| && s[index] > 0
    ensures WithdrawStep(s, index, s[index]).outcome == Ok(0)
    ensures WithdrawStep(s, index, s[index]).balances == s[index := 0]
  {
  }

  /** A withdrawal keeps every balance in range and removes exactly the withdrawn amount from the total. */
  lemma {:induction false} WithdrawInvariants(s: seq<int>, index: nat, amount: int)
    requires index < |s| && InRange(s)
    ensures var r := WithdrawStep(s, index, amount);
      && InRange(r.balances)
      && Sum(r.balances) == Sum(s) - (if r.outcome.Ok? then amount else 0)
  {
    var r := WithdrawStep(s, index, amount);
    if amount <= 0 || s[index] - amount < 0 {
      assert r.outcome.Fail? && r.balances == s;
    } else {
      assert r.outcome.Ok? && r.balances == s[index := s[index] - amount];
      SetBalance(s, r.balances, index, s[index] - amount);
    }
  }

  /** A successful deposit is undone by withdrawing the same amount from the same account. */
  lemma DepositThenWithdraw(s: seq<int>, index: nat, amount: int)
    requires index < |s| && InRange(s)
    requires DepositStep(s, index, amount).outcome.Ok?
    ensures var w := WithdrawStep(DepositStep(s, index, amount).balances, index, amount);
      w.outcome == Ok(s[index]) && w.balances == s
  {
    var d := DepositStep(s, index, amount).balances;
    assert d == s[index := s[index] + amount];
    assert d[index := d[index] - amount] == s;
  }

  // --------------------------------------------------------------- transfer

  function TransferStep(s: seq<int>, fromIndex: nat, toIndex: nat, amount: int): Step<()>
    requires fromIndex < |s| && toIndex < |s|
  {
    if amount <= 0 then Step(Fail(InvalidArgument), s, [])
    else if fromIndex == toIndex then Step(Fail(InvalidArgument), s, [])
    else
      var locked := if fromIndex < toIndex then [Lock(fromIndex), Lock(toIndex)]
                    else [Lock(toIndex), Lock(fromIndex)];
      if amount > s[fromIndex] then Step(Fail(Underflow), s, locked)
      else if amount > MAX_AMOUNT || s[toIndex] + amount > MAX_AMOUNT then
        Step(Fail(Overflow), s, locked)
      else
        var unlocked := if fromIndex < toIndex then [Unlock(fromIndex), Unlock(toIndex)]
                        else [Unlock(toIndex), Unlock(fromIndex)];
        Step(Ok(()), s[fromIndex := s[fromIndex] - amount][toIndex := s[toIndex] + amount],
             locked + unlocked)
  }

  /**
   * The checks of a transfer in their order: a non-positive amount or equal
   * indices is an invalid argument; then an amount above the source balance
   * is an underflow, even if the destination would also overflow; then an
   * amount or destination balance above MAX_AMOUNT is an overflow. On success
   * the source is debited and the destination credited by the amount.
   */
  lemma TransferOutcome(s: seq<int>, fromIndex: nat, toIndex: nat, amount: int)
    requires fromIndex < |s| && toIndex < |s|
    ensures var r := TransferStep(s, fromIndex, toIndex, amount);
      && (r.outcome == Fail(InvalidArgument) <==> amount <= 0 || fromIndex == toIndex)
      && (r.outcome == Fail(Underflow) <==>
            0 < amount && fromIndex != toIndex && amount > s[fromIndex])
      && (r.outcome == Fail(Overflow) <==>
            0 < amount && fromIndex != toIndex && amount <= s[fromIndex] &&
            (amount > MAX_AMOUNT || s[toIndex] + amount > MAX_AMOUNT))
      && (r.outcome.Fail? ==> r.balances == s)
      && (r.outcome.Ok? ==>
            r.balances == s[fromIndex := s[fromIndex] - amount][toIndex := s[toIndex] + amount])
  {
  }

  /** A transfer keeps every balance in range and never changes the total. */
  lemma {:induction false} TransferInvariants(s: seq<int>, fromIndex: nat, toIndex: nat, amount: int)
    requires fromIndex < |s| && toIndex < |s| && InRange(s)
    ensures var r := TransferStep(s, fromIndex, toIndex, amount);
      InRange(r.balances) && Sum(r.balances) == Sum(s)
  {
    var r := TransferStep(s, fromIndex, toIndex, amount);
    if r.outcome.Ok? {
      TransferOutcome(s, fromIndex, toIndex, amount);
      MoveBetween(s, r.balances, fromIndex, toIndex, amount);
    }
  }

  /** A successful transfer is undone by the same transfer in the opposite direction. */
  lemma TransferThenTransferBack(s: seq<int>, fromIndex: nat, toIndex: nat, amount: int)
    requires fromIndex < |s| && toIndex < |s| && InRange(s)
    requires TransferStep(s, fromIndex, toIndex, amount).outcome.Ok?
    ensures var back := TransferStep(TransferStep(s, fromIndex, toIndex, amount).balances,
                                     toIndex, fromIndex, amount);
      back.outcome.Ok? && back.balances == s
  {
    var t := TransferStep(s, fromIndex, toIndex, amount).balances;
    assert t[toIndex := t[toIndex] - amount][fromIndex := t[fromIndex] + amount] == s;
  }

  /**
   * Whatever the direction, a transfer that gets past its argument checks
   * locks the lower index first and the higher one second; a successful one
   * then releases both. A transfer refused for its arguments locks nothing.
   */
  lemma {:induction false} TransferLockOrder(s: seq<int>, fromIndex: nat, toIndex: nat, amount: int)
    requires fromIndex < |s| && toIndex < |s|
    ensures var r := TransferStep(s, fromIndex, toIndex, amount);
      && Acquired(r.locks) == (if amount <= 0 || fromIndex == toIndex then []
                               else [Min(fromIndex, toIndex), Max(fromIndex, toIndex)])
      && Ascending(Acquired(r.locks))
      && (r.outcome.Ok? ==> Released(r.locks) == Acquired(r.locks))
  {
    var r := TransferStep(s, fromIndex, toIndex, amount);
    TransferEvents(s, fromIndex, toIndex, amount);
    if amount > 0 && fromIndex != toIndex {
      var lo, hi := Min(fromIndex, toIndex), Max(fromIndex, toIndex);
      var locked := [Lock(lo), Lock(hi)];
      PairEvents(lo, hi);
      if r.outcome.Ok? {
        var unlocked := [Unlock(lo), Unlock(hi)];
        AcquiredReleasedAppend(locked, unlocked);
        assert Acquired(r.locks) == [lo, hi] && Released(r.locks) == [lo, hi];
      }
    }
  }

  /** The lock events of a transfer, by the lower and the higher of its two indices. */
  lemma TransferEvents(s: seq<int>, fromIndex: nat, toIndex: nat, amount: int)
    requires fromIndex < |s| && toIndex < |s|
    ensures var r := TransferStep(s, fromIndex, toIndex, amount);
      var lo, hi := Min(fromIndex, toIndex), Max(fromIndex, toIndex);
      r.locks == (if amount <= 0 || fromIndex == toIndex then []
                  else if r.outcome.Ok? then [Lock(lo), Lock(hi)] + [Unlock(lo), Unlock(hi)]
                  else [Lock(lo), Lock(hi)])
  {
  }

  /**
   * Two transfers between the same pair of accounts, in opposite directions
   * and from any two states, lock the two accounts in the same order.
   */
  lemma OppositeTransfersLockAlike(s1: seq<int>, s2: seq<int>, a: nat, b: nat, x: int, y: int)
    requires a < |s1| && b < |s1| && a < |s2| && b < |s2|
    requires a != b && x > 0 && y > 0
    ensures Acquired(TransferStep(s1, a, b, x).locks) == Acquired(TransferStep(s2, b, a, y).locks)
    ensures !OrderedBefore(Acquired(TransferStep(s1, a, b, x).locks), a, b) ||
            !OrderedBefore(Acquired(TransferStep(s2, b, a, y).locks), b, a)
  {
    TransferLockOrder(s1, a, b, x);
    TransferLockOrder(s2, b, a, y);
    NoOppositeOrders(Acquired(TransferStep(s1, a, b, x).locks),
                     Acquired(TransferStep(s2, b, a, y).locks), a, b);
  }

  /**
   * The whole-ledger sum over n accounts and any transfer, from any state,
   * never take some pair of accounts in opposite orders.
   */
  lemma TotalAndTransferLockAlike(n: nat, s: seq<int>, fromIndex: nat, toIndex: nat, amount: int,
                                  x: nat, y: nat)
    requires fromIndex < |s| && toIndex < |s|
    ensures !(OrderedBefore(Acquired(TotalLocks(n)), x, y) &&
              OrderedBefore(Acquired(TransferStep(s, fromIndex, toIndex, amount).locks), y, x))
  {
    TotalLockOrder(n);
    TransferLockOrder(s, fromIndex, toIndex, amount);
    NoOppositeOrders(Acquired(TotalLocks(n)),
                     Acquired(TransferStep(s, fromIndex, toIndex, amount).locks), x, y);
  }

  function Min(a: nat, b: nat): nat { if a < b then a else b }

  function Max(a: nat, b: nat): nat { if a < b then b else a }
}

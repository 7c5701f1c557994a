/**
 * The bank itself: a fixed array of accounts, updated in place.
 *
 * An account is represented by its amount, `accounts[i]`; its reentrant lock
 * is represented by the Lock/Unlock events each operation returns as a ghost
 * trace. Deposit, Withdraw and Transfer are proved to return, leave behind
 * and lock exactly what the corresponding function of module Ledger says, and
 * to keep the bank's invariant that every balance lies in 0..MAX_AMOUNT. The
 * queries change nothing: GetNumberOfAccounts and GetAmount read the array
 * directly, and GetTotalAmount is proved to return Sum with trace TotalLocks.
 */
module BankImpl {
  import opened Locks
  import opened Ledger

  class Bank {
    /** The amounts of accounts 0..n-1; the array itself is never replaced. */
    const accounts: array<int>

    ghost predicate Valid()
      reads accounts
    {
      InRange(accounts[..])
    }

    /** Creates n accounts, numbered 0..n-1, each with amount 0. */
    constructor (n: nat)
      ensures Valid()
      ensures fresh(accounts) && accounts.Length == n
      ensures forall i :: 0 <= i < n ==> accounts[i] == 0
    {
      var a := new int[n];
      var i := 0;
      while i < n
        invariant 0 <= i <= n
        invariant forall k :: 0 <= k < i ==> a[k] == 0
      {
        a[i] := 0;
        i := i + 1;
      }
      accounts := a;
    }

    method GetNumberOfAccounts() returns (n: nat)
      ensures n == accounts.Length
    {
      n := accounts.Length;
    }

    /** Reads one amount under that account's lock; changes nothing. */
    method GetAmount(index: nat) returns (amount: int, ghost locks: seq<LockEvent>)
      requires index < accounts.Length
      ensures amount == accounts[index]
      ensures Valid() ==> 0 <= amount <= MAX_AMOUNT
      ensures locks == [Lock(index), Unlock(index)]
    {
      locks := [Lock(index)];
      amount := accounts[index];
      locks := locks + [Unlock(index)];
    }

    /**
     * Sums all amounts while locking every account in ascending index order,
     * then unlocks them in descending order; changes nothing.
     */
    method GetTotalAmount() returns (sum: int, ghost locks: seq<LockEvent>)
      ensures sum == Sum(accounts[..])
      ensures locks == TotalLocks(accounts.Length)
    {
      var n := accounts.Length;
      sum := 0;
      locks := [];
      var i := 0;
      while i < n
        invariant 0 <= i <= n
        invariant sum == Sum(accounts[..i])
        invariant locks == LockAll(i)
      {
        locks := locks + [Lock(i)];
        assert accounts[..i + 1][..i] == accounts[..i];
        sum := sum + accounts[i];
        i := i + 1;
      }
      assert accounts[..n] == accounts[..];
      i := n - 1;
      while i >= 0
        invariant -1 <= i < n
        invariant locks == LockAll(n) + UnlockDown(i + 1, n)
      {
        locks := locks + [Unlock(i)];
        i := i - 1;
      }
    }

    /** Adds a positive amount to one account unless that would take it above MAX_AMOUNT. */
    method Deposit(index: nat, amount: int) returns (r: Outcome<int>, ghost locks: seq<LockEvent>)
      requires Valid() && index < accounts.Length
      modifies accounts
      ensures Valid()
      ensures Step(r, accounts[..], locks) == DepositStep(old(accounts[..]), index, amount)
      ensures Sum(accounts[..]) == old(Sum(accounts[..])) + (if r.Ok? then amount else 0)
    {
      DepositInvariants(accounts[..], index, amount);
      if amount <= 0 {
        return Fail(InvalidArgument), [];
      }
      locks := [Lock(index)];
      if amount > MAX_AMOUNT || accounts[index] + amount > MAX_AMOUNT {
        return Fail(Overflow), locks;
      }
      accounts[index] := accounts[index] + amount;
      var curAmount := accounts[index];
      locks := locks + [Unlock(index)];
      r := Ok(curAmount);
    }

    /** Takes a positive amount from one account unless that would take it below 0. */
    method Withdraw(index: nat, amount: int) returns (r: Outcome<int>, ghost locks: seq<LockEvent>)
      requires Valid() && index < accounts.Length
      modifies accounts
      ensures Valid()
      ensures Step(r, accounts[..], locks) == WithdrawStep(old(accounts[..]), index, amount)
      ensures Sum(accounts[..]) == old(Sum(accounts[..])) - (if r.Ok? then amount else 0)
    {
      WithdrawInvariants(accounts[..], index, amount);
      if amount <= 0 {
        return Fail(InvalidArgument), [];
      }
      locks := [Lock(index)];
      if accounts[index] - amount < 0 {
        return Fail(Underflow), locks;
      }
      accounts[index] := accounts[index] - amount;
      var curAmount := accounts[index];
      locks := locks + [Unlock(index)];
      r := Ok(curAmount);
    }

    /**
     * Moves a positive amount between two different accounts, holding both
     * locks, taken lower index first; the total is unchanged.
     */
    method Transfer(fromIndex: nat, toIndex: nat, amount: int) returns (r: Outcome<()>, ghost locks: seq<LockEvent>)
      requires Valid() && fromIndex < accounts.Length && toIndex < accounts.Length
      modifies accounts
      ensures Valid()
      ensures Step(r, accounts[..], locks) == TransferStep(old(accounts[..]), fromIndex, toIndex, amount)
      ensures Sum(accounts[..]) == old(Sum(accounts[..]))
    {
      TransferInvariants(accounts[..], fromIndex, toIndex, amount);
      if amount <= 0 {
        return Fail(InvalidArgument), [];
      }
      if fromIndex == toIndex {
        return Fail(InvalidArgument), [];
      }
      if fromIndex < toIndex {
        locks := [Lock(fromIndex), Lock(toIndex)];
      } else {
        locks := [Lock(toIndex), Lock(fromIndex)];
      }
      if amount > accounts[fromIndex] {
        return Fail(Underflow), locks;
      } else if amount > MAX_AMOUNT || accounts[toIndex] + amount > MAX_AMOUNT {
        return Fail(Overflow), locks;
      }
      accounts[fromIndex] := accounts[fromIndex] - amount;
      accounts[toIndex] := accounts[toIndex] + amount;
      if fromIndex < toIndex {
        locks := locks + [Unlock(fromIndex), Unlock(toIndex)];
      } else {
        locks := locks + [Unlock(toIndex), Unlock(fromIndex)];
      }
      r := Ok(());
    }
  }

  /**
   * A client of two accounts: deposits 100 and 50, transfers 30 from account 0
   * to account 1 and reads the total 150; then withdrawing 1000 from account 0
   * underflows, depositing 10000 into it overflows and a transfer from account
   * 0 to itself is an invalid argument, each leaving the amounts as they were.
   */
  method TwoAccountScenario()
  {
    var bank := new Bank(2);
    var r, t := bank.Deposit(0, 100);
    assert r == Ok(100);
    r, t := bank.Deposit(1, 50);
    assert r == Ok(50);
    var u, t' := bank.Transfer(0, 1, 30);
    assert bank.accounts[..] == [70, 80];
    var total, t'' := bank.GetTotalAmount();
    assert total == 150 by {
      assert bank.accounts[..][..1] == [70];
      assert [70][..0] == [];
    }
    r, t := bank.Withdraw(0, 1000);
    assert r == Fail(Underflow) && bank.accounts[..] == [70, 80];
    r, t := bank.Deposit(0, 10000);
    assert r == Fail(Overflow) && bank.accounts[..] == [70, 80];
    u, t' := bank.Transfer(0, 0, 10);
    assert u == Fail(InvalidArgument);
  }
}

/** The owner's withdrawal of funds that reached the contract without
    being accounted for (a direct transfer, say). */
module Unexpected {
  import opened Common

  /** The amounts the contract is expected to hold besides active stake:
      Inactive and withdraw-only stake (totals over all users), payments
      pending for stake purchases, and the rewards received minus the
      rewards already sent. */
  datatype Accounts = Accounts(inactiveTotal: nat, withdrawOnlyTotal: nat, pendingPayments: nat,
                               cumulatedRewards: nat, sentRewards: nat)

  function Held(a: Accounts): nat
  {
    a.inactiveTotal + a.withdrawOnlyTotal + a.pendingPayments + a.cumulatedRewards
  }

  /** get_unexpected_balance: the balance minus the expected balance, on
      unsigned integers, so it is defined exactly when the sent rewards do
      not exceed what is held and the balance covers the expected balance;
      it is then the surplus. */
  function GetUnexpectedBalance(a: Accounts, balance: nat): (r: Result<nat>)
    ensures r.Ok? <==> a.sentRewards <= Held(a) && Held(a) <= balance + a.sentRewards
    ensures r.Ok? ==> r.value + Held(a) == balance + a.sentRewards
  {
    var expected := Held(a);
    if a.sentRewards > expected then Err(UnderflowPanic)
    else
      var expected := expected - a.sentRewards;
      if expected > balance then Err(UnderflowPanic) else Ok(balance - expected)
  }

  /** A direct deposit of x raises the unexpected balance by exactly x. */
  lemma DepositIsUnexpected(a: Accounts, balance: nat, x: nat)
    requires GetUnexpectedBalance(a, balance).Ok?
    ensures GetUnexpectedBalance(a, balance + x) == Ok(GetUnexpectedBalance(a, balance).value + x)
  {
  }

  /** Sending the unexpected balance away leaves none. */
  lemma WithdrawLeavesNone(a: Accounts, balance: nat)
    requires GetUnexpectedBalance(a, balance).Ok?
    ensures GetUnexpectedBalance(a, balance - GetUnexpectedBalance(a, balance).value) == Ok(0)
  {
  }

  /** The view fails only when the sent rewards exceed everything held, or
      the balance falls short; sent rewards beyond the cumulated rewards
      alone, with the stake totals absorbing them, do not make it fail. */
  lemma SentBeyondCumulated(a: Accounts, balance: nat)
    requires a.cumulatedRewards < a.sentRewards <= Held(a) <= balance + a.sentRewards
    ensures GetUnexpectedBalance(a, balance) == Ok(balance + a.sentRewards - Held(a))
  {
  }

  /** Such accounts exist: 3 rewards sent of 1 cumulated, with 5 Inactive. */
  lemma SentBeyondCumulatedWitness()
    ensures exists a: Accounts, balance: nat :: a.cumulatedRewards < a.sentRewards && GetUnexpectedBalance(a, balance).Ok?
  {
    var a := Accounts(5, 0, 0, 1, 3);
    assert GetUnexpectedBalance(a, 10) == Ok(7);
  }

  /** withdraw_unexpected_balance: owner only; a positive unexpected
      balance is sent to the caller, nothing is sent otherwise. Nothing in
      the accounts changes. */
  method WithdrawUnexpectedBalance(caller: Address, owner: Address, a: Accounts, balance: nat)
    returns (r: Result<()>, sent: seq<Transfer>)
    ensures caller != owner ==> r == Err("only owner can withdraw unexpected balance") && sent == []
    ensures caller == owner && GetUnexpectedBalance(a, balance).Err? ==>
              r == Err(GetUnexpectedBalance(a, balance).msg) && sent == []
    ensures caller == owner && GetUnexpectedBalance(a, balance).Ok? ==>
              var x := GetUnexpectedBalance(a, balance).value;
              r == Ok(()) && sent == (if x > 0 then [Transfer(caller, x)] else [])
  {
    if caller != owner {
      return Err("only owner can withdraw unexpected balance"), [];
    }
    var u := GetUnexpectedBalance(a, balance);
    if u.Err? {
      return Err(u.msg), [];
    }
    sent := [];
    if u.value > 0 {
      sent := [Transfer(caller, u.value)];
    }
    r := Ok(());
  }
}

/** Stake trade among delegators: a delegator offers part of their Active
    stake for sale, and anyone may buy it, one staked unit for one unit of
    payment, which is forwarded to the seller. */
module StakeSale {
  import opened Common
  import opened FundLedger

  /** The sum of the values of ids 1..n. */
  function TotalOver(m: map<nat, nat>, n: nat): nat
  {
    if n == 0 then 0 else TotalOver(m, n - 1) + ValueAt(m, n)
  }

  /** Writing one id's value changes the sum over 1..n by the difference
      when the id is among them, and not at all otherwise. */
  lemma {:induction false} TotalOverPoint(m: map<nat, nat>, n: nat, u: nat, x: nat)
    ensures 1 <= u <= n ==> TotalOver(m[u := x], n) + ValueAt(m, u) == TotalOver(m, n) + x
    ensures !(1 <= u <= n) ==> TotalOver(m[u := x], n) == TotalOver(m, n)
  {
    if n > 0 {
      TotalOverPoint(m, n - 1, u, x);
    }
  }

  /** A balance of one fund type is part of the user's whole stake. */
  lemma StakeWithinFundSum(l: Ledger, u: nat, t: FundType)
    ensures Stake(l, u, t) <= FundSum(l, u)
  {
    FundSumUpdate(l, u, t, 0);
  }

  /** Writing a user's Active balance together with a matching total keeps
      every user's stake over all fund types equal to their total. */
  lemma TotalsAfterWrite(l: Ledger, tot: map<nat, nat>, n: nat, u: nat, l2: Ledger, tot2: map<nat, nat>)
    requires forall v: nat :: FundSum(l, v) == ValueAt(tot, v)
    requires forall v: nat :: v > n ==> ValueAt(tot, v) == 0
    requires l2 == l[(u, Active) := Stake(l2, u, Active)]
    requires tot2 == tot[u := ValueAt(tot2, u)]
    requires ValueAt(tot2, u) + Stake(l, u, Active) == ValueAt(tot, u) + Stake(l2, u, Active)
    requires u > n ==> ValueAt(tot2, u) == 0
    ensures forall v: nat :: FundSum(l2, v) == ValueAt(tot2, v)
    ensures forall v: nat :: v > n ==> ValueAt(tot2, v) == 0
  {
    FundSumUpdate(l, u, Active, Stake(l2, u, Active));
    forall v: nat ensures FundSum(l2, v) == ValueAt(tot2, v) {
      if v != u {
        assert ValueAt(tot2, v) == ValueAt(tot, v);
      }
    }
    forall v: nat | v > n ensures ValueAt(tot2, v) == 0 {
      if v != u {
        assert ValueAt(tot2, v) == ValueAt(tot, v);
      }
    }
  }

  /** The seller's side of a purchase: their Active stake and their total
      stake each drop by the payment. */
  method DebitSeller(users: UserData, s: nat, payment: nat)
    requires users.Valid() && payment <= Stake(users.stake, s, Active) && payment <= ValueAt(users.totalStake, s)
    modifies users`stake, users`totalStake
    ensures users.Valid()
    ensures users.stake == old(users.stake)[(s, Active) := Stake(old(users.stake), s, Active) - payment]
    ensures users.totalStake == old(users.totalStake)[s := ValueAt(old(users.totalStake), s) - payment]
  {
    var active := Stake(users.stake, s, Active);
    ghost var l, tot := users.stake, users.totalStake;
    users.stake := users.stake[(s, Active) := active - payment];
    users.totalStake := users.totalStake[s := ValueAt(users.totalStake, s) - payment];
    TotalsAfterWrite(l, tot, users.numUsers, s, users.stake, users.totalStake);
  }

  /** The buyer's side of a purchase: their total stake and their Active
      stake each grow by the payment. */
  method CreditBuyer(users: UserData, b: nat, payment: nat)
    requires users.Valid() && 1 <= b <= users.numUsers
    modifies users`stake, users`totalStake
    ensures users.Valid()
    ensures users.stake == old(users.stake)[(b, Active) := Stake(old(users.stake), b, Active) + payment]
    ensures users.totalStake == old(users.totalStake)[b := ValueAt(old(users.totalStake), b) + payment]
  {
    var active := Stake(users.stake, b, Active);
    ghost var l, tot := users.stake, users.totalStake;
    users.totalStake := users.totalStake[b := ValueAt(users.totalStake, b) + payment];
    users.stake := users.stake[(b, Active) := active + payment];
    TotalsAfterWrite(l, tot, users.numUsers, b, users.stake, users.totalStake);
  }

  class StakeMarket {
    const users: UserData
    /** Payments forwarded to sellers, in order. */
    var payments: seq<Transfer>

    constructor (users: UserData)
      ensures this.users == users && payments == []
    {
      this.users := users;
      payments := [];
    }

    /** getStakeForSale: how much a user offers, 0 for an address that is
        not a delegator. */
    function GetStakeForSale(a: Address): (r: nat)
      reads this, users
      ensures users.UserId(a) == 0 ==> r == 0
      ensures users.UserId(a) != 0 ==> r == ValueAt(users.stakeForSale, users.UserId(a))
    {
      var id := users.UserId(a);
      if id == 0 then 0 else ValueAt(users.stakeForSale, id)
    }

    /** offerStakeForSale: a delegator offers at most their Active stake;
        the offer replaces any earlier one and records the time. */
    method OfferStakeForSale(caller: Address, amount: nat, now: nat) returns (r: Result<()>)
      requires users.Valid()
      modifies users`stakeForSale, users`offerTime
      ensures users.Valid()
      ensures var u := users.UserId(caller);
              && (u == 0 ==> r == Err("only delegators can offer stake for sale"))
              && (u != 0 && amount > Stake(users.stake, u, Active) ==>
                    r == Err("cannot offer more than the user active stake"))
              && (r.Err? ==> users.stakeForSale == old(users.stakeForSale) && users.offerTime == old(users.offerTime))
              && (r.Ok? <==> u != 0 && amount <= Stake(users.stake, u, Active))
              && (r.Ok? ==> && users.stakeForSale == old(users.stakeForSale)[u := amount]
                            && users.offerTime == old(users.offerTime)[u := now]
                            && GetStakeForSale(caller) == amount)
    {
      var u := users.UserId(caller);
      if u == 0 {
        return Err("only delegators can offer stake for sale");
      }
      if amount > Stake(users.stake, u, Active) {
        return Err("cannot offer more than the user active stake");
      }
      users.stakeForSale := users.stakeForSale[u := amount];
      users.offerTime := users.offerTime[u := now];
      r := Ok(());
    }

    /** purchaseStake: the caller buys `payment` of the seller's offered
        Active stake. A zero payment does nothing. The offer is reduced
        before the seller's Active stake is checked, so that write stays
        when the second check fails. */
    method PurchaseStake(caller: Address, seller: Address, payment: nat) returns (r: Result<()>)
      requires users.Valid()
      modifies users`stakeForSale, users`stake, users`totalStake, users`numUsers, users`userIdOf, this`payments
      ensures users.Valid()
      ensures var s := old(users.UserId(seller));
              var forSale := ValueAt(old(users.stakeForSale), s);
              var active := Stake(old(users.stake), s, Active);
              && (payment == 0 ==> r == Ok(()))
              && (payment > 0 && s == 0 ==> r == Err("unknown seller"))
              && (payment > 0 && s != 0 && payment > forSale ==> r == Err("payment exceeds stake offered"))
              && (payment > 0 && s != 0 && payment <= forSale && payment > active ==>
                    r == Err("payment exceeds seller active stake"))
              && (payment == 0 || s == 0 || payment > forSale ==> users.stakeForSale == old(users.stakeForSale))
              && (payment > 0 && s != 0 && payment <= forSale ==>
                    users.stakeForSale == old(users.stakeForSale)[s := forSale - payment])
              && (payment == 0 || s == 0 || payment > forSale || payment > active ==>
                    && users.stake == old(users.stake) && users.totalStake == old(users.totalStake)
                    && users.numUsers == old(users.numUsers) && users.userIdOf == old(users.userIdOf)
                    && payments == old(payments))
              && (payment > 0 && s != 0 && payment <= forSale && payment <= active ==>
                    && r == Ok(())
                    && Exchanged(old(users.stake), old(users.totalStake), old(users.numUsers), old(users.userIdOf),
                                 users.stake, users.totalStake, users.numUsers, users.userIdOf, s, caller, payment)
                    && payments == old(payments) + [Transfer(seller, payment)])
    {
      if payment == 0 {
        return Ok(());
      }
      var s := users.UserId(seller);
      if s == 0 {
        return Err("unknown seller");
      }
      var forSale := ValueAt(users.stakeForSale, s);
      if payment > forSale {
        return Err("payment exceeds stake offered");
      }
      users.stakeForSale := users.stakeForSale[s := forSale - payment];
      if payment > Stake(users.stake, s, Active) {
        return Err("payment exceeds seller active stake");
      }
      Exchange(s, caller, payment);
      payments := payments + [Transfer(seller, payment)];
      r := Ok(());
    }

    /** The buyer's user id; a caller without one is given the next id. */
    method BuyerId(caller: Address) returns (b: nat)
      requires users.Valid()
      modifies users`numUsers, users`userIdOf
      ensures users.Valid()
      ensures var newBuyer := caller !in old(users.userIdOf) || old(users.userIdOf)[caller] == 0;
              && b == (if newBuyer then old(users.numUsers) + 1 else old(users.userIdOf)[caller])
              && users.numUsers == old(users.numUsers) + (if newBuyer then 1 else 0)
              && users.userIdOf == (if newBuyer then old(users.userIdOf)[caller := b] else old(users.userIdOf))
              && 1 <= b <= users.numUsers
    {
      b := users.UserId(caller);
      if b == 0 {
        b := users.NewUser();
        users.SetUserId(caller, b);
      }
    }

    /** The ledger part of a purchase: the seller's Active and total stake
        drop by the payment, the buyer gets a user id if they have none, and
        their total and Active stake grow by it. */
    method Exchange(s: nat, caller: Address, payment: nat)
      requires users.Valid() && 1 <= s <= users.numUsers && 0 < payment <= Stake(users.stake, s, Active)
      modifies users`stake, users`totalStake, users`numUsers, users`userIdOf
      ensures users.Valid()
      ensures Exchanged(old(users.stake), old(users.totalStake), old(users.numUsers), old(users.userIdOf),
                        users.stake, users.totalStake, users.numUsers, users.userIdOf, s, caller, payment)
    {
      ghost var stake0, total0, n0, ids0 := users.stake, users.totalStake, users.numUsers, users.userIdOf;
      StakeWithinFundSum(stake0, s, Active);
      DebitSeller(users, s, payment);
      ghost var stake1, total1 := users.stake, users.totalStake;
      var b := BuyerId(caller);
      ghost var stake2, total2 := users.stake, users.totalStake;
      assert stake2 == stake1 && total2 == total1;
      CreditBuyer(users, b, payment);
      ExchangeSteps(stake0, total0, n0, ids0, stake2, total2, users.stake, users.totalStake, users.numUsers, users.userIdOf,
                    s, caller, payment, b);
    }
  }

  /** The steps of Exchange, composed. */
  lemma ExchangeSteps(stake0: Ledger, total0: map<nat, nat>, n0: nat, ids0: map<Address, nat>,
                      stake1: Ledger, total1: map<nat, nat>,
                      stake: Ledger, total: map<nat, nat>, n: nat, ids: map<Address, nat>,
                      s: nat, caller: Address, payment: nat, b: nat)
    requires 1 <= s <= n0 && 0 < payment <= Stake(stake0, s, Active) && payment <= ValueAt(total0, s)
    requires forall v: nat :: v > n0 ==> ValueAt(total0, v) == 0
    requires stake1 == stake0[(s, Active) := Stake(stake0, s, Active) - payment]
    requires total1 == total0[s := ValueAt(total0, s) - payment]
    requires var newBuyer := caller !in ids0 || ids0[caller] == 0;
             && b == (if newBuyer then n0 + 1 else ids0[caller])
             && n == n0 + (if newBuyer then 1 else 0)
             && ids == (if newBuyer then ids0[caller := b] else ids0)
    requires 1 <= b <= n
    requires stake == stake1[(b, Active) := Stake(stake1, b, Active) + payment]
    requires total == total1[b := ValueAt(total1, b) + payment]
    ensures Exchanged(stake0, total0, n0, ids0, stake, total, n, ids, s, caller, payment)
  {
    TotalOverPoint(total0, n0, s, ValueAt(total0, s) - payment);
    TotalOverPoint(total1, n, b, ValueAt(total1, b) + payment);
    if n == n0 + 1 {
      assert TotalOver(total1, n) == TotalOver(total1, n0) + ValueAt(total1, n0 + 1);
    }
    if s == b {
      assert (s, Active) in stake0 && s in total0;
      assert stake == stake0;
      assert total == total0;
    }
  }

  /** What a purchase of `payment` by the address `caller` from user s does
      to the ledger: the buyer b is the caller's user id, or the next id if
      they had none; if s and b differ, s's Active and total stake drop by
      the payment and b's grow by it, and if they are the same nothing
      changes; no other entry changes; the sum of the total stakes over all
      users is the same. */
  ghost predicate Exchanged(stake0: Ledger, total0: map<nat, nat>, n0: nat, ids0: map<Address, nat>,
                            stake: Ledger, total: map<nat, nat>, n: nat, ids: map<Address, nat>,
                            s: nat, caller: Address, payment: nat)
  {
    var newBuyer := caller !in ids0 || ids0[caller] == 0;
    var b := if newBuyer then n0 + 1 else ids0[caller];
    && n == n0 + (if newBuyer then 1 else 0)
    && ids == (if newBuyer then ids0[caller := b] else ids0)
    && (s != b ==> && Stake(stake, s, Active) == Stake(stake0, s, Active) - payment
                   && Stake(stake, b, Active) == Stake(stake0, b, Active) + payment
                   && ValueAt(total, s) == ValueAt(total0, s) - payment
                   && ValueAt(total, b) == ValueAt(total0, b) + payment)
    && (s == b ==> stake == stake0 && total == total0)
    && (forall v: nat, t :: (v != s && v != b) || t != Active ==> Stake(stake, v, t) == Stake(stake0, v, t))
    && (forall v: nat :: v != s && v != b ==> ValueAt(total, v) == ValueAt(total0, v))
    && TotalOver(total, n) == TotalOver(total0, n0)
  }
}

/** The per-delegator fund ledger: each user's stake split by fund type, and
    the ordered transforms that move stake from one fund type to another,
    one user at a time (transform_user_stake and its ascending and
    descending sweeps). */
module FundLedger {
  import opened Common

  /** The phase a unit of delegated stake is in. */
  datatype FundType =
    | Inactive
    | PendingActivation
    | Active
    | PendingDeactivation
    | UnBondPeriod
    | PendingUnBond
    | WithdrawOnly

  /** Stake per (user id, fund type); an unwritten entry reads as 0. */
  type Ledger = map<(nat, FundType), nat>

  function Stake(l: Ledger, u: nat, t: FundType): nat
  {
    if (u, t) in l then l[(u, t)] else 0
  }

  /** A user's stake over all fund types. */
  function FundSum(l: Ledger, u: nat): nat
  {
    Stake(l, u, Inactive) + Stake(l, u, PendingActivation) + Stake(l, u, Active)
    + Stake(l, u, PendingDeactivation) + Stake(l, u, UnBondPeriod) + Stake(l, u, PendingUnBond)
    + Stake(l, u, WithdrawOnly)
  }

  /** Writing one entry changes that user's overall stake by the difference
      and nobody else's. */
  lemma FundSumUpdate(l: Ledger, u: nat, t: FundType, x: nat)
    ensures FundSum(l[(u, t) := x], u) + Stake(l, u, t) == FundSum(l, u) + x
    ensures forall v: nat :: v != u ==> FundSum(l[(u, t) := x], v) == FundSum(l, v)
  {
  }

  function Min(a: nat, b: nat): nat
  {
    if a <= b then a else b
  }

  /** The ledger after a draw and the part of the request still unmet. */
  datatype Draw = Draw(ledger: Ledger, rest: nat)

  /** transform_user_stake: moves as much as possible of `supply` from the
      user's `from` balance to their `to` balance. The `from` entry is
      written before the `to` entry. */
  function TransformUser(l: Ledger, u: nat, from: FundType, to: FundType, supply: nat): Draw
  {
    var have := Stake(l, u, from);
    var got := Stake(l, u, to);
    if supply > have then
      Draw(l[(u, from) := 0][(u, to) := got + have], supply - have)
    else
      Draw(l[(u, from) := have - supply][(u, to) := got + supply], 0)
  }

  /** The draw from one user is min(supply, balance): it leaves the `from`
      balance, arrives in the `to` balance and is taken off the request. */
  lemma TransformUserAmounts(l: Ledger, u: nat, from: FundType, to: FundType, supply: nat)
    requires from != to
    ensures var d := TransformUser(l, u, from, to, supply);
            var moved := Min(supply, Stake(l, u, from));
            && d.rest == supply - moved
            && Stake(d.ledger, u, from) == Stake(l, u, from) - moved
            && Stake(d.ledger, u, to) == Stake(l, u, to) + moved
            && (d.rest > 0 ==> Stake(d.ledger, u, from) == 0)
  {
  }

  /** A draw from user u writes only u's `from` and `to` entries. */
  lemma TransformUserOther(l: Ledger, u: nat, from: FundType, to: FundType, supply: nat, v: nat, t: FundType)
    requires v != u || (t != from && t != to)
    ensures Stake(TransformUser(l, u, from, to, supply).ledger, v, t) == Stake(l, v, t)
  {
    assert (v, t) != (u, from) && (v, t) != (u, to);
  }

  /** A draw never changes anybody's stake over all fund types. */
  lemma TransformUserFundSum(l: Ledger, u: nat, from: FundType, to: FundType, supply: nat)
    requires from != to
    ensures forall v: nat :: FundSum(TransformUser(l, u, from, to, supply).ledger, v) == FundSum(l, v)
  {
    var have := Stake(l, u, from);
    var got := Stake(l, u, to);
    var a := if supply > have then 0 else have - supply;
    var b := if supply > have then got + have else got + supply;
    var l1 := l[(u, from) := a];
    assert TransformUser(l, u, from, to, supply).ledger == l1[(u, to) := b];
    assert Stake(l1, u, to) == got;
    FundSumUpdate(l, u, from, a);
    FundSumUpdate(l1, u, to, b);
  }

  /** transform_user_stake as a whole: the draw is min(supply, balance), no
      other entry changes and nobody's overall stake changes. */
  lemma TransformUserDraw(l: Ledger, u: nat, from: FundType, to: FundType, supply: nat)
    requires from != to
    ensures var d := TransformUser(l, u, from, to, supply);
            var moved := Min(supply, Stake(l, u, from));
            && d.rest == supply - moved
            && Stake(d.ledger, u, from) == Stake(l, u, from) - moved
            && Stake(d.ledger, u, to) == Stake(l, u, to) + moved
            && (forall v: nat, t :: (v != u || (t != from && t != to)) ==> Stake(d.ledger, v, t) == Stake(l, v, t))
            && (forall v: nat :: FundSum(d.ledger, v) == FundSum(l, v))
  {
    TransformUserAmounts(l, u, from, to, supply);
    forall v: nat, t | v != u || (t != from && t != to)
      ensures Stake(TransformUser(l, u, from, to, supply).ledger, v, t) == Stake(l, v, t)
    {
      TransformUserOther(l, u, from, to, supply, v, t);
    }
    TransformUserFundSum(l, u, from, to, supply);
  }

  /** The sweep loop of transform_user_stake_asc/desc, over the users in
      `order`: it stops when the order is exhausted or nothing remains. */
  function Sweep(l: Ledger, from: FundType, to: FundType, remaining: nat, order: seq<nat>): Draw
    decreases |order|
  {
    if |order| == 0 || remaining == 0 then Draw(l, remaining)
    else
      var d := TransformUser(l, order[0], from, to, remaining);
      Sweep(d.ledger, from, to, d.rest, order[1..])
  }

  /** User ids lo, lo + 1, ..., hi. */
  function Ascending(lo: nat, hi: nat): seq<nat>
    decreases hi + 1 - lo
  {
    if lo > hi then [] else [lo] + Ascending(lo + 1, hi)
  }

  /** User ids i, i - 1, ..., 1. */
  function Descending(i: nat): seq<nat>
  {
    if i == 0 then [] else [i] + Descending(i - 1)
  }

  /** User ids 1, 2, ..., n: the ascending sweep's order. */
  function UpIds(n: nat): seq<nat>
  {
    Ascending(1, n)
  }

  /** User ids n, n - 1, ..., 1: the descending sweep's order. */
  function DownIds(n: nat): seq<nat>
  {
    Descending(n)
  }

  /** The ascending sweep from user i on: user i first, then i + 1 on. */
  lemma SweepAscStep(l: Ledger, from: FundType, to: FundType, remaining: nat, i: nat, n: nat, l2: Ledger, rest: nat)
    requires i <= n && remaining > 0 && Draw(l2, rest) == TransformUser(l, i, from, to, remaining)
    ensures Sweep(l, from, to, remaining, Ascending(i, n)) == Sweep(l2, from, to, rest, Ascending(i + 1, n))
  {
    assert Ascending(i, n)[1..] == Ascending(i + 1, n);
  }

  /** The descending sweep from user i down: user i first, then i - 1 down. */
  lemma SweepDescStep(l: Ledger, from: FundType, to: FundType, remaining: nat, i: nat, l2: Ledger, rest: nat)
    requires i > 0 && remaining > 0 && Draw(l2, rest) == TransformUser(l, i, from, to, remaining)
    ensures Sweep(l, from, to, remaining, Descending(i)) == Sweep(l2, from, to, rest, Descending(i - 1))
  {
    assert Descending(i)[1..] == Descending(i - 1);
  }

  /** The user storage invariant: user ids lie in 1..numUsers; each user's
      stake over all fund types is their total stake; ids not yet handed out
      hold nothing. */
  ghost predicate Consistent(numUsers: nat, userIdOf: map<Address, nat>, stake: Ledger, totalStake: map<nat, nat>)
  {
    && (forall a :: a in userIdOf ==> 1 <= userIdOf[a] <= numUsers)
    && (forall u: nat {:trigger FundSum(stake, u)} :: FundSum(stake, u) == ValueAt(totalStake, u))
    && (forall u: nat :: u > numUsers ==> ValueAt(totalStake, u) == 0)
  }

  /** A sweep keeps the storage invariant. */
  lemma SweepConsistent(n: nat, ids: map<Address, nat>, l: Ledger, tot: map<nat, nat>,
                        from: FundType, to: FundType, amount: nat, order: seq<nat>)
    requires from != to && Consistent(n, ids, l, tot)
    ensures Consistent(n, ids, Sweep(l, from, to, amount, order).ledger, tot)
  {
    SweepFundSum(l, from, to, amount, order);
  }

  /** With the request met or the users exhausted the sweep does nothing. */
  lemma SweepAscDone(l: Ledger, from: FundType, to: FundType, remaining: nat, i: nat, n: nat)
    requires i > n || remaining == 0
    ensures Sweep(l, from, to, remaining, Ascending(i, n)) == Draw(l, remaining)
  {
  }

  lemma SweepDescDone(l: Ledger, from: FundType, to: FundType, remaining: nat, i: nat)
    requires i == 0 || remaining == 0
    ensures Sweep(l, from, to, remaining, Descending(i)) == Draw(l, remaining)
  {
  }

  /** Sum of the `t` balances of the users in `ids`. */
  function SumOver(l: Ledger, t: FundType, ids: seq<nat>): nat
    decreases |ids|
  {
    if |ids| == 0 then 0 else Stake(l, ids[0], t) + SumOver(l, t, ids[1..])
  }

  /** Sum of the `t` balances of users 1..n. */
  function SumUsers(l: Ledger, t: FundType, n: nat): nat
  {
    SumOver(l, t, UpIds(n))
  }

  lemma {:induction false} SumOverSame(l1: Ledger, l2: Ledger, t: FundType, ids: seq<nat>)
    requires forall k :: 0 <= k < |ids| ==> Stake(l1, ids[k], t) == Stake(l2, ids[k], t)
    ensures SumOver(l1, t, ids) == SumOver(l2, t, ids)
    decreases |ids|
  {
    if |ids| > 0 {
      assert Stake(l1, ids[0], t) == Stake(l2, ids[0], t);
      SumOverSame(l1, l2, t, ids[1..]);
    }
  }

  lemma {:induction false} SumOverAppend(l: Ledger, t: FundType, a: seq<nat>, b: seq<nat>)
    ensures SumOver(l, t, a + b) == SumOver(l, t, a) + SumOver(l, t, b)
    decreases |a|
  {
    if |a| > 0 {
      assert (a + b)[1..] == a[1..] + b;
      SumOverAppend(l, t, a[1..], b);
    } else {
      assert a + b == b;
    }
  }

  lemma {:induction false} AscendingFacts(lo: nat, hi: nat)
    ensures |Ascending(lo, hi)| == if lo > hi then 0 else hi + 1 - lo
    ensures forall p :: 0 <= p < |Ascending(lo, hi)| ==> Ascending(lo, hi)[p] == lo + p
    decreases hi + 1 - lo
  {
    if lo <= hi {
      AscendingFacts(lo + 1, hi);
    }
  }

  lemma {:induction false} DescendingFacts(i: nat)
    ensures |Descending(i)| == i
    ensures forall p :: 0 <= p < i ==> Descending(i)[p] == i - p
  {
    if i > 0 {
      DescendingFacts(i - 1);
    }
  }

  lemma {:induction false} AscendingSnoc(n: nat)
    ensures UpIds(n + 1) == UpIds(n) + [n + 1]
  {
    AscendingFacts(1, n);
    AscendingFacts(1, n + 1);
  }

  /** Summing over the descending order gives the same total as over the
      ascending one. */
  lemma {:induction false} SumDownUp(l: Ledger, t: FundType, n: nat)
    ensures SumOver(l, t, DownIds(n)) == SumUsers(l, t, n)
    decreases n
  {
    if n > 0 {
      AscendingSnoc(n - 1);
      SumDownUp(l, t, n - 1);
      SumOverAppend(l, t, UpIds(n - 1), [n]);
      assert SumOver(l, t, [n]) == Stake(l, n, t) by {
        assert [n][1..] == [];
      }
      assert DownIds(n)[1..] == DownIds(n - 1);
    }
  }

  lemma UpIdsFacts(n: nat)
    ensures |UpIds(n)| == n && Distinct(UpIds(n))
    ensures forall p :: 0 <= p < n ==> UpIds(n)[p] == p + 1
    ensures forall v: nat :: v in UpIds(n) <==> 1 <= v <= n
  {
    AscendingFacts(1, n);
    forall v: nat | 1 <= v <= n ensures v in UpIds(n) {
      assert UpIds(n)[v - 1] == v;
    }
  }

  lemma DownIdsFacts(n: nat)
    ensures |DownIds(n)| == n && Distinct(DownIds(n))
    ensures forall p :: 0 <= p < n ==> DownIds(n)[p] == n - p
    ensures forall v: nat :: v in DownIds(n) <==> 1 <= v <= n
  {
    DescendingFacts(n);
    forall v: nat | 1 <= v <= n ensures v in DownIds(n) {
      assert DownIds(n)[n - v] == v;
    }
  }

  lemma HeadNotInTail(order: seq<nat>)
    requires |order| > 0 && Distinct(order)
    ensures Distinct(order[1..]) && order[0] !in order[1..]
  {
    forall k | 0 <= k < |order[1..]| ensures order[1..][k] != order[0] {
      assert order[1..][k] == order[k + 1];
    }
  }

  lemma {:induction false} SweepRestBound(l: Ledger, from: FundType, to: FundType, remaining: nat, order: seq<nat>)
    ensures Sweep(l, from, to, remaining, order).rest <= remaining
    decreases |order|
  {
    if |order| > 0 && remaining > 0 {
      var d := TransformUser(l, order[0], from, to, remaining);
      SweepRestBound(d.ledger, from, to, d.rest, order[1..]);
    }
  }

  /** A sweep only ever lowers a `from` balance. */
  lemma {:induction false} SweepLowersFrom(l: Ledger, from: FundType, to: FundType, remaining: nat, order: seq<nat>, v: nat)
    requires from != to
    ensures Stake(Sweep(l, from, to, remaining, order).ledger, v, from) <= Stake(l, v, from)
    decreases |order|
  {
    if |order| > 0 && remaining > 0 {
      var d := TransformUser(l, order[0], from, to, remaining);
      TransformUserDraw(l, order[0], from, to, remaining);
      SweepLowersFrom(d.ledger, from, to, d.rest, order[1..], v);
    }
  }

  /** Changing one user's balance changes a sum over distinct users that
      includes them by exactly that difference. */
  lemma {:induction false} SumOverOne(l1: Ledger, l2: Ledger, t: FundType, ids: seq<nat>, u: nat)
    requires Distinct(ids) && u in ids
    requires forall k :: 0 <= k < |ids| && ids[k] != u ==> Stake(l1, ids[k], t) == Stake(l2, ids[k], t)
    ensures SumOver(l2, t, ids) + Stake(l1, u, t) == SumOver(l1, t, ids) + Stake(l2, u, t)
    decreases |ids|
  {
    HeadNotInTail(ids);
    var tail := ids[1..];
    if ids[0] == u {
      forall k | 0 <= k < |tail| ensures Stake(l1, tail[k], t) == Stake(l2, tail[k], t) {
        assert tail[k] == ids[k + 1];
      }
      SumOverSame(l1, l2, t, tail);
    } else {
      forall k | 0 <= k < |tail| && tail[k] != u ensures Stake(l1, tail[k], t) == Stake(l2, tail[k], t) {
        assert tail[k] == ids[k + 1];
      }
      SumOverOne(l1, l2, t, tail, u);
    }
  }

  /** A sweep leaves every entry alone except the `from` and `to` balances of
      the users in its order, and it never asks for more than requested. */
  lemma {:induction false} SweepOther(l: Ledger, from: FundType, to: FundType, remaining: nat, order: seq<nat>, v: nat, t: FundType)
    requires v !in order || (t != from && t != to)
    ensures Stake(Sweep(l, from, to, remaining, order).ledger, v, t) == Stake(l, v, t)
    decreases |order|
  {
    if |order| > 0 && remaining > 0 {
      var d := TransformUser(l, order[0], from, to, remaining);
      TransformUserOther(l, order[0], from, to, remaining, v, t);
      assert v !in order ==> v !in order[1..];
      SweepOther(d.ledger, from, to, d.rest, order[1..], v, t);
    }
  }

  /** A sweep never changes a user's stake over all fund types. */
  lemma {:induction false} SweepFundSum(l: Ledger, from: FundType, to: FundType, remaining: nat, order: seq<nat>)
    requires from != to
    ensures forall v: nat :: FundSum(Sweep(l, from, to, remaining, order).ledger, v) == FundSum(l, v)
    decreases |order|
  {
    if |order| > 0 && remaining > 0 {
      var d := TransformUser(l, order[0], from, to, remaining);
      TransformUserFundSum(l, order[0], from, to, remaining);
      SweepFundSum(d.ledger, from, to, d.rest, order[1..]);
    }
  }

  lemma SweepFrame(l: Ledger, from: FundType, to: FundType, remaining: nat, order: seq<nat>)
    requires from != to
    ensures var r := Sweep(l, from, to, remaining, order);
            && r.rest <= remaining
            && (forall v: nat, t :: (v !in order || (t != from && t != to)) ==> Stake(r.ledger, v, t) == Stake(l, v, t))
            && (forall v: nat :: FundSum(r.ledger, v) == FundSum(l, v))
  {
    SweepRestBound(l, from, to, remaining, order);
    forall v: nat, t | v !in order || (t != from && t != to)
      ensures Stake(Sweep(l, from, to, remaining, order).ledger, v, t) == Stake(l, v, t)
    {
      SweepOther(l, from, to, remaining, order, v, t);
    }
    SweepFundSum(l, from, to, remaining, order);
  }

  /** What a sweep over distinct users leaves unmet is exactly the part of
      the request that their `from` balances together could not cover. */
  lemma {:induction false} SweepRest(l: Ledger, from: FundType, to: FundType, remaining: nat, order: seq<nat>)
    requires from != to && Distinct(order)
    ensures var r := Sweep(l, from, to, remaining, order);
            var s := SumOver(l, from, order);
            r.rest == if remaining <= s then 0 else remaining - s
    decreases |order|
  {
    if |order| > 0 && remaining > 0 {
      var d := TransformUser(l, order[0], from, to, remaining);
      TransformUserAmounts(l, order[0], from, to, remaining);
      var tail := order[1..];
      HeadNotInTail(order);
      forall k | 0 <= k < |tail| ensures Stake(d.ledger, tail[k], from) == Stake(l, tail[k], from) {
        TransformUserOther(l, order[0], from, to, remaining, tail[k], from);
      }
      SumOverSame(d.ledger, l, from, tail);
      SweepRest(d.ledger, from, to, d.rest, tail);
    }
  }

  /** Over distinct users, what the sweep moves (the request minus what is
      left unmet) leaves the users' `t`-balances when t is `from` and
      arrives in them when t is `to`. */
  lemma {:induction false} SweepMovedType(l: Ledger, from: FundType, to: FundType, remaining: nat, order: seq<nat>, t: FundType)
    requires from != to && Distinct(order) && (t == from || t == to)
    ensures var r := Sweep(l, from, to, remaining, order);
            && r.rest <= remaining
            && (t == from ==> SumOver(r.ledger, t, order) + (remaining - r.rest) == SumOver(l, t, order))
            && (t == to ==> SumOver(r.ledger, t, order) == SumOver(l, t, order) + (remaining - r.rest))
    decreases |order|
  {
    SweepRestBound(l, from, to, remaining, order);
    if |order| > 0 && remaining > 0 {
      var d := TransformUser(l, order[0], from, to, remaining);
      TransformUserAmounts(l, order[0], from, to, remaining);
      var tail := order[1..];
      HeadNotInTail(order);
      forall k | 0 <= k < |tail| ensures Stake(d.ledger, tail[k], t) == Stake(l, tail[k], t) {
        TransformUserOther(l, order[0], from, to, remaining, tail[k], t);
      }
      SumOverSame(d.ledger, l, t, tail);
      SweepMovedType(d.ledger, from, to, d.rest, tail, t);
      SweepOther(d.ledger, from, to, d.rest, tail, order[0], t);
    }
  }

  lemma SweepMoved(l: Ledger, from: FundType, to: FundType, remaining: nat, order: seq<nat>)
    requires from != to && Distinct(order)
    ensures var r := Sweep(l, from, to, remaining, order);
            && r.rest <= remaining
            && SumOver(r.ledger, from, order) + (remaining - r.rest) == SumOver(l, from, order)
            && SumOver(r.ledger, to, order) == SumOver(l, to, order) + (remaining - r.rest)
  {
    SweepMovedType(l, from, to, remaining, order, from);
    SweepMovedType(l, from, to, remaining, order, to);
  }

  /** A sweep that leaves part of the request unmet has drained the `from`
      balance of every user in its order. */
  lemma {:induction false} SweepDrains(l: Ledger, from: FundType, to: FundType, remaining: nat, order: seq<nat>, v: nat)
    requires from != to && v in order
    ensures var r := Sweep(l, from, to, remaining, order);
            r.rest > 0 ==> Stake(r.ledger, v, from) == 0
    decreases |order|
  {
    if |order| > 0 && remaining > 0 {
      var d := TransformUser(l, order[0], from, to, remaining);
      TransformUserAmounts(l, order[0], from, to, remaining);
      var tail := order[1..];
      SweepRestBound(d.ledger, from, to, d.rest, tail);
      if v in tail {
        SweepDrains(d.ledger, from, to, d.rest, tail, v);
      } else {
        assert v == order[0];
        SweepOther(d.ledger, from, to, d.rest, tail, v, from);
      }
    }
  }

  /** Greedy order: a user whose `from` balance the sweep changed is reached
      only after every user before it in the order has been drained. */
  lemma {:induction false} SweepGreedy(l: Ledger, from: FundType, to: FundType, remaining: nat, order: seq<nat>, p: nat, q: nat)
    requires from != to && Distinct(order) && p < q < |order|
    ensures var r := Sweep(l, from, to, remaining, order);
            Stake(r.ledger, order[q], from) != Stake(l, order[q], from) ==> Stake(r.ledger, order[p], from) == 0
    decreases |order|
  {
    if |order| > 0 && remaining > 0 {
      var d := TransformUser(l, order[0], from, to, remaining);
      TransformUserAmounts(l, order[0], from, to, remaining);
      var tail := order[1..];
      HeadNotInTail(order);
      var r := Sweep(d.ledger, from, to, d.rest, tail);
      assert order[q] == tail[q - 1];
      TransformUserOther(l, order[0], from, to, remaining, order[q], from);
      if Stake(r.ledger, order[q], from) != Stake(l, order[q], from) {
        // the tail sweep changed something, so it still had work to do
        assert d.rest > 0;
        if p == 0 {
          SweepOther(d.ledger, from, to, d.rest, tail, order[0], from);
        } else {
          assert order[p] == tail[p - 1];
          SweepGreedy(d.ledger, from, to, d.rest, tail, p - 1, q - 1);
        }
      }
    }
  }

  /** transform_user_stake_asc, stated over users 1..n: it succeeds exactly
      when their `from` balances cover the amount; on failure all of them are
      drained; it moves exactly what it takes; a user is drawn from only
      after every lower id is drained; nobody's overall stake changes. */
  lemma SweepAscOutcome(l: Ledger, from: FundType, to: FundType, amount: nat, n: nat)
    requires from != to
    ensures var r := Sweep(l, from, to, amount, UpIds(n));
            && (r.rest == 0 <==> amount <= SumUsers(l, from, n))
            && (r.rest > 0 ==> forall u :: 1 <= u <= n ==> Stake(r.ledger, u, from) == 0)
            && SumUsers(r.ledger, from, n) + (amount - r.rest) == SumUsers(l, from, n)
            && SumUsers(r.ledger, to, n) == SumUsers(l, to, n) + (amount - r.rest)
            && (forall j, k :: 1 <= j < k <= n && Stake(r.ledger, k, from) != Stake(l, k, from)
                  ==> Stake(r.ledger, j, from) == 0)
            && (forall u: nat, t :: (u == 0 || u > n || (t != from && t != to)) ==> Stake(r.ledger, u, t) == Stake(l, u, t))
            && (forall u: nat :: FundSum(r.ledger, u) == FundSum(l, u))
  {
    var order := UpIds(n);
    UpIdsFacts(n);
    SweepFrame(l, from, to, amount, order);
    SweepRest(l, from, to, amount, order);
    SweepMoved(l, from, to, amount, order);
    var r := Sweep(l, from, to, amount, order);
    forall u | 1 <= u <= n && r.rest > 0 ensures Stake(r.ledger, u, from) == 0 {
      SweepDrains(l, from, to, amount, order, u);
    }
    forall j, k | 1 <= j < k <= n && Stake(r.ledger, k, from) != Stake(l, k, from)
      ensures Stake(r.ledger, j, from) == 0
    {
      assert order[j - 1] == j && order[k - 1] == k;
      SweepGreedy(l, from, to, amount, order, j - 1, k - 1);
    }
  }

  /** transform_user_stake_desc, stated over users n..1: the mirror image of
      SweepAscOutcome, where higher ids are drained first. */
  lemma SweepDescOutcome(l: Ledger, from: FundType, to: FundType, amount: nat, n: nat)
    requires from != to
    ensures var r := Sweep(l, from, to, amount, DownIds(n));
            && (r.rest == 0 <==> amount <= SumUsers(l, from, n))
            && (r.rest > 0 ==> forall u :: 1 <= u <= n ==> Stake(r.ledger, u, from) == 0)
            && SumUsers(r.ledger, from, n) + (amount - r.rest) == SumUsers(l, from, n)
            && SumUsers(r.ledger, to, n) == SumUsers(l, to, n) + (amount - r.rest)
            && (forall j, k :: 1 <= k < j <= n && Stake(r.ledger, k, from) != Stake(l, k, from)
                  ==> Stake(r.ledger, j, from) == 0)
            && (forall u: nat, t :: (u == 0 || u > n || (t != from && t != to)) ==> Stake(r.ledger, u, t) == Stake(l, u, t))
            && (forall u: nat :: FundSum(r.ledger, u) == FundSum(l, u))
  {
    var order := DownIds(n);
    DownIdsFacts(n);
    SweepFrame(l, from, to, amount, order);
    SweepRest(l, from, to, amount, order);
    SweepMoved(l, from, to, amount, order);
    var r := Sweep(l, from, to, amount, order);
    SumDownUp(l, from, n);
    SumDownUp(l, to, n);
    SumDownUp(r.ledger, from, n);
    SumDownUp(r.ledger, to, n);
    forall u | 1 <= u <= n && r.rest > 0 ensures Stake(r.ledger, u, from) == 0 {
      SweepDrains(l, from, to, amount, order, u);
    }
    forall j, k | 1 <= k < j <= n && Stake(r.ledger, k, from) != Stake(l, k, from)
      ensures Stake(r.ledger, j, from) == 0
    {
      assert order[n - j] == j && order[n - k] == k;
      SweepGreedy(l, from, to, amount, order, n - j, n - k);
    }
  }

  /** The user-data storage: user ids, the fund ledger, each user's total
      stake and their stake-for-sale offer. */
  class UserData {
    var numUsers: nat
    var userIdOf: map<Address, nat>
    var stake: Ledger
    var totalStake: map<nat, nat>
    var stakeForSale: map<nat, nat>
    var offerTime: map<nat, nat>

    /** User ids lie in 1..numUsers; each user's stake over all fund types is
        their total stake; ids not yet handed out hold nothing. */
    ghost predicate Valid()
      reads this
    {
      Consistent(numUsers, userIdOf, stake, totalStake)
    }

    constructor ()
      ensures Valid()
      ensures numUsers == 0 && userIdOf == map[] && stake == map[]
      ensures totalStake == map[] && stakeForSale == map[] && offerTime == map[]
    {
      numUsers := 0;
      userIdOf := map[];
      stake := map[];
      totalStake := map[];
      stakeForSale := map[];
      offerTime := map[];
    }

    /** getUserId: 0 for an address that is not a delegator. */
    function UserId(a: Address): nat
      reads this
    {
      if a in userIdOf then userIdOf[a] else 0
    }

    method TransformUserStake(u: nat, from: FundType, to: FundType, supply: nat) returns (rest: nat)
      requires from != to
      modifies this`stake
      ensures old(Valid()) ==> Valid()
      ensures Draw(stake, rest) == TransformUser(old(stake), u, from, to, supply)
    {
      var have := Stake(stake, u, from);
      var got := Stake(stake, u, to);
      if supply > have {
        got := got + have;
        rest := supply - have;
        have := 0;
      } else {
        have := have - supply;
        got := got + supply;
        rest := 0;
      }
      ghost var d := TransformUser(stake, u, from, to, supply);
      TransformUserFundSum(stake, u, from, to, supply);
      stake := stake[(u, from) := have][(u, to) := got];
      assert stake == d.ledger;
    }

    method TransformUserStakeAsc(from: FundType, to: FundType, amount: nat) returns (r: Result<()>)
      requires Valid() && from != to
      modifies this`stake
      ensures Valid()
      ensures var d := Sweep(old(stake), from, to, amount, UpIds(numUsers));
              stake == d.ledger && r == (if d.rest > 0 then Err("not enough user stake") else Ok(()))
    {
      var remaining := amount;
      var i := 1;
      var n := numUsers;
      ghost var target := Sweep(stake, from, to, amount, UpIds(n));
      while i <= n && remaining > 0
        invariant 1 <= i <= n + 1 && n == numUsers
        invariant Sweep(stake, from, to, remaining, Ascending(i, n)) == target
      {
        ghost var before, rem0 := stake, remaining;
        remaining := TransformUserStake(i, from, to, remaining);
        SweepAscStep(before, from, to, rem0, i, n, stake, remaining);
        i := i + 1;
      }
      SweepAscDone(stake, from, to, remaining, i, n);
      SweepConsistent(n, userIdOf, old(stake), totalStake, from, to, amount, UpIds(n));
      if remaining > 0 {
        r := Err("not enough user stake");
      } else {
        r := Ok(());
      }
    }

    method TransformUserStakeDesc(from: FundType, to: FundType, amount: nat) returns (r: Result<()>)
      requires Valid() && from != to
      modifies this`stake
      ensures Valid()
      ensures var d := Sweep(old(stake), from, to, amount, DownIds(numUsers));
              stake == d.ledger && r == (if d.rest > 0 then Err("not enough active stake") else Ok(()))
    {
      var remaining := amount;
      var i: nat := numUsers;
      ghost var target := Sweep(stake, from, to, amount, DownIds(numUsers));
      while i > 0 && remaining > 0
        invariant Sweep(stake, from, to, remaining, Descending(i)) == target
      {
        ghost var before, rem0 := stake, remaining;
        remaining := TransformUserStake(i, from, to, remaining);
        SweepDescStep(before, from, to, rem0, i, stake, remaining);
        i := i - 1;
      }
      SweepDescDone(stake, from, to, remaining, i);
      SweepConsistent(numUsers, userIdOf, old(stake), totalStake, from, to, amount, DownIds(numUsers));
      if remaining > 0 {
        r := Err("not enough active stake");
      } else {
        r := Ok(());
      }
    }

    /** new_user: hands out the next user id. */
    method NewUser() returns (id: nat)
      requires Valid()
      modifies this`numUsers
      ensures Valid()
      ensures id == old(numUsers) + 1 && numUsers == id
    {
      numUsers := numUsers + 1;
      id := numUsers;
    }

    method SetUserId(a: Address, id: nat)
      requires Valid() && 1 <= id <= numUsers
      modifies this`userIdOf
      ensures Valid()
      ensures userIdOf == old(userIdOf)[a := id]
    {
      userIdOf := userIdOf[a := id];
    }
  }
}

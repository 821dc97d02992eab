/** The checkpoint reward distributor: rewards accumulate in one
    ever-growing counter (the total cumulated rewards); each user keeps the
    counter's value at their last computation (their checkpoint) and the
    rewards computed for them but not yet sent (their unclaimed rewards).
    A computation splits what arrived since the checkpoint into the service
    part, which goes to the owner, and the delegators' part, shared by
    Active stake. */
module Rewards {
  import opened Common

  const OwnerUserId: nat := 1
  /** The fund ledger keeps per-type totals over all users under this id. */
  const UserStakeTotalsId: nat := 0
  const PercentageDenominator: nat := 10000

  datatype UserRewardData = UserRewardData(rewardCheckpoint: nat, unclaimedRewards: nat)

  /** What a reward computation reads besides the user's own record: the
      total cumulated rewards, the service fee (in hundredths of a percent)
      and each user's Active stake, the total under UserStakeTotalsId. */
  datatype RewardEnv = RewardEnv(totalCumulated: nat, serviceFee: nat, activeStake: map<nat, nat>)

  /** Floor division loses less than one unit on each operand. */
  lemma DivSum(x: nat, y: nat, d: nat)
    requires d > 0
    ensures x / d + y / d <= (x + y) / d <= x / d + y / d + 1
  {
    var q1, r1 := x / d, x % d;
    var q2, r2 := y / d, y % d;
    assert x + y == d * (q1 + q2) + (r1 + r2);
    if r1 + r2 < d {
      DivUnique(x + y, d, q1 + q2, r1 + r2);
    } else {
      assert x + y == d * (q1 + q2 + 1) + (r1 + r2 - d);
      DivUnique(x + y, d, q1 + q2 + 1, r1 + r2 - d);
    }
  }

  /** A nonzero multiple of d is at least d away from zero. */
  lemma MulAtLeast(d: nat, k: int)
    requires d > 0
    ensures k >= 1 ==> d * k >= d
    ensures k <= -1 ==> d * k <= 0 - d
  {
    if k >= 1 {
      assert d * k == d + d * (k - 1);
    } else if k <= -1 {
      assert d * k == d * (k + 1) - d;
      assert d * (-(k + 1)) >= 0;
    }
  }

  lemma DivUnique(x: nat, d: nat, q: nat, r: nat)
    requires d > 0 && 0 <= r < d && x == d * q + r
    ensures x / d == q
  {
    var q0, r0 := x / d, x % d;
    assert d * (q - q0) == r0 - r;
    MulAtLeast(d, q - q0);
  }

  /** split_service_reward: the service part fee * t / 10000 and the
      delegators' part (10000 - fee) * t / 10000, both rounded down; a fee
      above 10000 makes the subtraction underflow. The two parts add up to
      t or to t - 1. */
  function SplitServiceReward(fee: nat, t: nat): (r: Result<(nat, nat)>)
    ensures r.Err? <==> fee > PercentageDenominator
    ensures r.Ok? ==> r.value.0 + r.value.1 <= t <= r.value.0 + r.value.1 + 1
    ensures r.Ok? ==> r.value.0 <= t && r.value.1 <= t
  {
    if fee > PercentageDenominator then Err(UnderflowPanic)
    else
      var service := Share(t, fee, PercentageDenominator);
      var delegators := Share(t, PercentageDenominator - fee, PercentageDenominator);
      assert t * fee + t * (PercentageDenominator - fee) == PercentageDenominator * t;
      DivSum(t * fee, t * (PercentageDenominator - fee), PercentageDenominator);
      Ok((service, delegators))
  }

  /** load_updated_user_rewards: brings one user's record up to date
      without storing it. */
  function LoadUpdatedUserRewards(env: RewardEnv, id: nat, stored: UserRewardData): Result<UserRewardData>
  {
    if stored.rewardCheckpoint > env.totalCumulated then Err(UnderflowPanic)
    else
      var newRewards := env.totalCumulated - stored.rewardCheckpoint;
      if newRewards == 0 then Ok(stored)
      else
        match SplitServiceReward(env.serviceFee, newRewards)
        case Err(m) => Err(m)
        case Ok((service, delegators)) =>
          var owed := if id == OwnerUserId then stored.unclaimedRewards + service else stored.unclaimedRewards;
          var own := ValueAt(env.activeStake, id);
          var total := ValueAt(env.activeStake, UserStakeTotalsId);
          if own > 0 && total == 0 then Err(DivisionByZeroPanic)
          else Ok(UserRewardData(env.totalCumulated, if own > 0 then owed + Share(delegators, own, total) else owed))
  }

  /** The rewards that arrived since the user's checkpoint. */
  function NewRewards(env: RewardEnv, stored: UserRewardData): int
  {
    env.totalCumulated - stored.rewardCheckpoint
  }

  /** The computation fails exactly on a checkpoint beyond the counter, or,
      when there is something new, on a fee above 100% or on Active stake
      with a zero total; on success the checkpoint reaches the counter and
      the unclaimed amount never shrinks. */
  lemma LoadOutcome(env: RewardEnv, id: nat, stored: UserRewardData)
    ensures var r := LoadUpdatedUserRewards(env, id, stored);
            && (r.Err? <==> stored.rewardCheckpoint > env.totalCumulated
                            || (NewRewards(env, stored) > 0
                                && (env.serviceFee > PercentageDenominator
                                    || (ValueAt(env.activeStake, id) > 0 && ValueAt(env.activeStake, UserStakeTotalsId) == 0))))
            && (r.Ok? ==> r.value.rewardCheckpoint == env.totalCumulated
                          && r.value.unclaimedRewards >= stored.unclaimedRewards)
  {
  }

  /** Nothing new since the checkpoint: the stored record comes back as is. */
  lemma LoadNothingNew(env: RewardEnv, id: nat, stored: UserRewardData)
    requires stored.rewardCheckpoint == env.totalCumulated
    ensures LoadUpdatedUserRewards(env, id, stored) == Ok(stored)
  {
  }

  /** Computing twice with no new rewards in between gives the same record. */
  lemma LoadIdempotent(env: RewardEnv, id: nat, stored: UserRewardData)
    requires LoadUpdatedUserRewards(env, id, stored).Ok?
    ensures var d := LoadUpdatedUserRewards(env, id, stored).value;
            LoadUpdatedUserRewards(env, id, d) == Ok(d)
  {
  }

  /** Only the owner receives the service part: a user other than the owner
      without Active stake gains nothing, and the owner without Active stake
      gains exactly the service part. */
  lemma ServiceOnlyToOwner(env: RewardEnv, id: nat, stored: UserRewardData)
    requires LoadUpdatedUserRewards(env, id, stored).Ok? && ValueAt(env.activeStake, id) == 0
    ensures var d := LoadUpdatedUserRewards(env, id, stored).value;
            var n := env.totalCumulated - stored.rewardCheckpoint;
            && (id != OwnerUserId ==> d.unclaimedRewards == stored.unclaimedRewards)
            && (id == OwnerUserId ==> d.unclaimedRewards == stored.unclaimedRewards + Share(n, env.serviceFee, PercentageDenominator))
  {
  }

  /** A user whose Active stake does not exceed the total gains at most the
      delegators' part, plus the service part for the owner; hence never
      more than what arrived since the checkpoint. */
  lemma GainBound(env: RewardEnv, id: nat, stored: UserRewardData)
    requires LoadUpdatedUserRewards(env, id, stored).Ok?
    requires ValueAt(env.activeStake, id) <= ValueAt(env.activeStake, UserStakeTotalsId)
    ensures var d := LoadUpdatedUserRewards(env, id, stored).value;
            var n := env.totalCumulated - stored.rewardCheckpoint;
            && (id != OwnerUserId && n > 0 ==> d.unclaimedRewards <= stored.unclaimedRewards
                                                           + Share(n, PercentageDenominator - env.serviceFee, PercentageDenominator))
            && d.unclaimedRewards <= stored.unclaimedRewards + n
  {
  }

  /** The share of `part` that `own` out of `total` earns, rounded down; it
      never exceeds `part` while `own` does not exceed `total`. */
  function Share(part: nat, own: nat, total: nat): (r: nat)
    requires total > 0
    ensures own <= total ==> r <= part
  {
    if own <= total then ShareBound(part, own, total); part * own / total
    else part * own / total
  }

  lemma ShareBound(part: nat, own: nat, total: nat)
    requires 0 < total && own <= total
    ensures part * own / total <= part
  {
    MulLe(part, own, total);
    DivMono(part * own, part * total, total);
    DivUnique(part * total, total, part, 0);
  }

  lemma MulLe(k: nat, a: nat, b: nat)
    requires a <= b
    ensures k * a <= k * b
  {
    assert k * b == k * a + k * (b - a);
  }

  lemma DivMono(x: nat, y: nat, d: nat)
    requires d > 0 && x <= y
    ensures x / d <= y / d
  {
    var q1, q2 := x / d, y / d;
    assert d * (q1 - q2) == (x - x % d) - (y - y % d);
    MulAtLeast(d, q1 - q2);
  }

  function Sum(s: seq<nat>): nat
  {
    if |s| == 0 then 0 else Sum(s[..|s| - 1]) + s[|s| - 1]
  }

  /** The delegators' shares computed for users with the given Active
      stakes. */
  function Shares(part: nat, total: nat, stakes: seq<nat>): nat
    requires total > 0
  {
    if |stakes| == 0 then 0
    else Shares(part, total, stakes[..|stakes| - 1]) + Share(part, stakes[|stakes| - 1], total)
  }

  /** Users whose Active stakes add up to at most the total are owed, all
      together, at most the delegators' part: rounding down never hands out
      more than arrived. */
  lemma {:induction false} SharesWithinPart(part: nat, total: nat, stakes: seq<nat>)
    requires total > 0 && Sum(stakes) <= total
    ensures Shares(part, total, stakes) <= Share(part, Sum(stakes), total) <= part
  {
    if |stakes| == 0 {
      assert part * Sum(stakes) == 0;
    } else {
      var init, last := stakes[..|stakes| - 1], stakes[|stakes| - 1];
      SharesWithinPart(part, total, init);
      ShareAdd(part, Sum(init), last, total);
    }
  }

  /** Shares computed separately add up to at most the share of the sum. */
  lemma ShareAdd(part: nat, a: nat, b: nat, total: nat)
    requires total > 0
    ensures Share(part, a, total) + Share(part, b, total) <= Share(part, a + b, total)
  {
    MulLe(part, 0, a);
    MulLe(part, 0, b);
    assert part * (a + b) == part * a + part * b;
    DivSum(part * a, part * b, total);
  }

  function StoredIn(checkpoints: map<nat, nat>, unclaimed: map<nat, nat>, id: nat): UserRewardData
  {
    UserRewardData(ValueAt(checkpoints, id), ValueAt(unclaimed, id))
  }

  /** get_total_unclaimed_rewards over users 1..n: the updated unclaimed
      amounts, added up; a failing computation stops the sum. */
  function SumUnclaimed(env: RewardEnv, checkpoints: map<nat, nat>, unclaimed: map<nat, nat>, n: nat): Result<nat>
  {
    if n == 0 then Ok(0)
    else
      match SumUnclaimed(env, checkpoints, unclaimed, n - 1)
      case Err(m) => Err(m)
      case Ok(s) =>
        match LoadUpdatedUserRewards(env, n, StoredIn(checkpoints, unclaimed, n))
        case Err(m) => Err(m)
        case Ok(d) => Ok(s + d.unclaimedRewards)
  }

  /** Once the sum has failed, every longer sum fails the same way. */
  lemma {:induction false} SumUnclaimedFaultSticks(env: RewardEnv, ck: map<nat, nat>, uc: map<nat, nat>, k: nat, n: nat)
    requires k <= n && SumUnclaimed(env, ck, uc, k).Err?
    ensures SumUnclaimed(env, ck, uc, n) == SumUnclaimed(env, ck, uc, k)
    decreases n
  {
    if n > k {
      SumUnclaimedFaultSticks(env, ck, uc, k, n - 1);
    }
  }

  /** Replacing one user's record by one whose updated unclaimed amount
      differs changes the total by exactly that difference. */
  lemma {:induction false} SumUnclaimedPoint(env: RewardEnv, ck: map<nat, nat>, uc: map<nat, nat>,
                                             ck2: map<nat, nat>, uc2: map<nat, nat>, n: nat, u: nat)
    requires forall k :: 1 <= k <= n && k != u ==> StoredIn(ck2, uc2, k) == StoredIn(ck, uc, k)
    requires LoadUpdatedUserRewards(env, u, StoredIn(ck, uc, u)).Ok?
    requires LoadUpdatedUserRewards(env, u, StoredIn(ck2, uc2, u)).Ok?
    requires SumUnclaimed(env, ck, uc, n).Ok?
    ensures var before := LoadUpdatedUserRewards(env, u, StoredIn(ck, uc, u)).value.unclaimedRewards;
            var after := LoadUpdatedUserRewards(env, u, StoredIn(ck2, uc2, u)).value.unclaimedRewards;
            && SumUnclaimed(env, ck2, uc2, n).Ok?
            && SumUnclaimed(env, ck2, uc2, n).value + (if 1 <= u <= n then before else 0)
               == SumUnclaimed(env, ck, uc, n).value + (if 1 <= u <= n then after else 0)
    decreases n
  {
    if n > 0 {
      assert SumUnclaimed(env, ck, uc, n - 1).Ok?;
      SumUnclaimedPoint(env, ck, uc, ck2, uc2, n - 1, u);
    }
  }

  /** total_unprotected: balance + sent - cumulated - waiting - unstaked -
      deferred - withdraw-only, evaluated left to right on unsigned
      integers. It is defined exactly when the balance and the sent
      rewards cover the rest, and then it is the surplus. */
  function TotalUnprotected(balance: nat, sent: nat, cumulated: nat, waiting: nat, unstaked: nat,
                            deferred: nat, withdraw: nat): (r: Result<nat>)
    ensures r.Ok? <==> balance + sent >= cumulated + waiting + unstaked + deferred + withdraw
    ensures r.Ok? ==> r.value + cumulated + waiting + unstaked + deferred + withdraw == balance + sent
  {
    var a := balance + sent;
    if cumulated > a then Err(UnderflowPanic)
    else if waiting > a - cumulated then Err(UnderflowPanic)
    else if unstaked > a - cumulated - waiting then Err(UnderflowPanic)
    else if deferred > a - cumulated - waiting - unstaked then Err(UnderflowPanic)
    else if withdraw > a - cumulated - waiting - unstaked - deferred then Err(UnderflowPanic)
    else Ok(a - cumulated - waiting - unstaked - deferred - withdraw)
  }

  /** The reward storage: per-user checkpoint and unclaimed rewards, the
      rewards sent so far, and the transfers made. */
  class RewardStore {
    var checkpoints: map<nat, nat>
    var unclaimed: map<nat, nat>
    var sentRewards: nat
    var transfers: seq<Transfer>

    constructor ()
      ensures checkpoints == map[] && unclaimed == map[] && sentRewards == 0 && transfers == []
    {
      checkpoints, unclaimed, sentRewards, transfers := map[], map[], 0, [];
    }

    function Stored(id: nat): UserRewardData
      reads this
    {
      StoredIn(checkpoints, unclaimed, id)
    }

    /** compute_one_user_reward: stores the updated record of one user. */
    method ComputeOneUserReward(env: RewardEnv, id: nat) returns (r: Result<()>)
      modifies this`checkpoints, this`unclaimed
      ensures var l := LoadUpdatedUserRewards(env, id, old(Stored(id)));
              && (l.Err? ==> r == Err(l.msg) && checkpoints == old(checkpoints) && unclaimed == old(unclaimed))
              && (l.Ok? ==> r == Ok(())
                            && checkpoints == old(checkpoints)[id := l.value.rewardCheckpoint]
                            && unclaimed == old(unclaimed)[id := l.value.unclaimedRewards])
    {
      var l := LoadUpdatedUserRewards(env, id, Stored(id));
      if l.Err? {
        return Err(l.msg);
      }
      checkpoints := checkpoints[id := l.value.rewardCheckpoint];
      unclaimed := unclaimed[id := l.value.unclaimedRewards];
      r := Ok(());
    }

    /** get_claimable_rewards: 0 for an address that is not a user, else
        the user's updated unclaimed rewards; nothing is stored. */
    function GetClaimableRewards(env: RewardEnv, userIdOf: map<Address, nat>, a: Address): (r: Result<nat>)
      reads this
      ensures (a !in userIdOf || userIdOf[a] == 0) ==> r == Ok(0)
      ensures a in userIdOf && userIdOf[a] != 0 ==>
                (r.Ok? <==> LoadUpdatedUserRewards(env, userIdOf[a], Stored(userIdOf[a])).Ok?)
                && (r.Ok? ==> r.value >= Stored(userIdOf[a]).unclaimedRewards)
    {
      var id := if a in userIdOf then userIdOf[a] else 0;
      if id == 0 then Ok(0)
      else
        LoadOutcome(env, id, Stored(id));
        match LoadUpdatedUserRewards(env, id, Stored(id))
        case Err(m) => Err(m)
        case Ok(d) => Ok(d.unclaimedRewards)
    }

    /** get_total_unclaimed_rewards: the loop over users 1..numUsers. */
    method GetTotalUnclaimedRewards(env: RewardEnv, numUsers: nat) returns (r: Result<nat>)
      ensures r == SumUnclaimed(env, checkpoints, unclaimed, numUsers)
    {
      var sum := 0;
      var id := 1;
      while id <= numUsers
        invariant 1 <= id <= numUsers + 1
        invariant SumUnclaimed(env, checkpoints, unclaimed, id - 1) == Ok(sum)
      {
        var l := LoadUpdatedUserRewards(env, id, Stored(id));
        if l.Err? {
          SumUnclaimedFaultSticks(env, checkpoints, unclaimed, id, numUsers);
          return Err(l.msg);
        }
        sum := sum + l.value.unclaimedRewards;
        id := id + 1;
      }
      r := Ok(sum);
    }

    /** send_rewards: the transfer, and the sent-rewards counter grows by
        the amount. */
    method SendRewards(to: Address, amount: nat)
      modifies this`sentRewards, this`transfers
      ensures sentRewards == old(sentRewards) + amount
      ensures transfers == old(transfers) + [Transfer(to, amount)]
    {
      transfers := transfers + [Transfer(to, amount)];
      sentRewards := sentRewards + amount;
    }

    /** claim_rewards: fails for a caller that is not a user and while a
        checkpoint reset is in progress; otherwise the updated unclaimed
        rewards, when positive, are sent and the user's record is stored
        with nothing unclaimed. */
    method ClaimRewards(env: RewardEnv, userIdOf: map<Address, nat>, caller: Address, resetInProgress: bool)
      returns (r: Result<()>)
      modifies this`checkpoints, this`unclaimed, this`sentRewards, this`transfers
      ensures var id := if caller in userIdOf then userIdOf[caller] else 0;
              var l := LoadUpdatedUserRewards(env, id, old(Stored(id)));
              && (id == 0 ==> r == Err("unknown caller"))
              && (id != 0 && resetInProgress ==> r == Err("claim rewards is temporarily paused as checkpoint is reset"))
              && (id != 0 && !resetInProgress && l.Err? ==> r == Err(l.msg))
              && (r.Err? ==> checkpoints == old(checkpoints) && unclaimed == old(unclaimed)
                             && sentRewards == old(sentRewards) && transfers == old(transfers))
              && (r.Ok? <==> id != 0 && !resetInProgress && l.Ok?)
              && (r.Ok? ==> && old(GetClaimableRewards(env, userIdOf, caller)) == Ok(l.value.unclaimedRewards)
                            && checkpoints == old(checkpoints)[id := env.totalCumulated]
                            && unclaimed == old(unclaimed)[id := 0]
                            && sentRewards == old(sentRewards) + l.value.unclaimedRewards
                            && transfers == old(transfers) + (if l.value.unclaimedRewards > 0
                                                              then [Transfer(caller, l.value.unclaimedRewards)] else []))
    {
      var id := if caller in userIdOf then userIdOf[caller] else 0;
      if id == 0 {
        return Err("unknown caller");
      }
      if resetInProgress {
        return Err("claim rewards is temporarily paused as checkpoint is reset");
      }
      var l := LoadUpdatedUserRewards(env, id, Stored(id));
      if l.Err? {
        return Err(l.msg);
      }
      LoadOutcome(env, id, Stored(id));
      var data := l.value;
      if data.unclaimedRewards > 0 {
        SendRewards(caller, data.unclaimedRewards);
        data := data.(unclaimedRewards := 0);
      }
      checkpoints := checkpoints[id := data.rewardCheckpoint];
      unclaimed := unclaimed[id := data.unclaimedRewards];
      r := Ok(());
    }
  }

  /** Storing one user's updated record leaves the total of the updated
      unclaimed rewards unchanged. */
  lemma ComputeKeepsTotal(env: RewardEnv, ck: map<nat, nat>, uc: map<nat, nat>, n: nat, u: nat)
    requires LoadUpdatedUserRewards(env, u, StoredIn(ck, uc, u)).Ok? && SumUnclaimed(env, ck, uc, n).Ok?
    ensures var d := LoadUpdatedUserRewards(env, u, StoredIn(ck, uc, u)).value;
            SumUnclaimed(env, ck[u := d.rewardCheckpoint], uc[u := d.unclaimedRewards], n) == SumUnclaimed(env, ck, uc, n)
  {
    var d := LoadUpdatedUserRewards(env, u, StoredIn(ck, uc, u)).value;
    var ck2, uc2 := ck[u := d.rewardCheckpoint], uc[u := d.unclaimedRewards];
    assert StoredIn(ck2, uc2, u) == d;
    LoadIdempotent(env, u, StoredIn(ck, uc, u));
    SumUnclaimedPoint(env, ck, uc, ck2, uc2, n, u);
  }

  /** A claim by user u among 1..n moves exactly what it pays out of the
      total of the updated unclaimed rewards: the sent rewards plus that
      total stay the same. */
  lemma ClaimConserves(env: RewardEnv, ck: map<nat, nat>, uc: map<nat, nat>, n: nat, u: nat, sent: nat)
    requires 1 <= u <= n
    requires LoadUpdatedUserRewards(env, u, StoredIn(ck, uc, u)).Ok? && SumUnclaimed(env, ck, uc, n).Ok?
    ensures var d := LoadUpdatedUserRewards(env, u, StoredIn(ck, uc, u)).value;
            var after := SumUnclaimed(env, ck[u := env.totalCumulated], uc[u := 0], n);
            after.Ok? && (sent + d.unclaimedRewards) + after.value == sent + SumUnclaimed(env, ck, uc, n).value
  {
    var ck2, uc2 := ck[u := env.totalCumulated], uc[u := 0];
    assert StoredIn(ck2, uc2, u) == UserRewardData(env.totalCumulated, 0);
    LoadNothingNew(env, u, StoredIn(ck2, uc2, u));
    SumUnclaimedPoint(env, ck, uc, ck2, uc2, n, u);
  }
}

/** The later version of the activation saga. Unlike the earlier one it
    keeps no total active stake, deactivation and unbonding draw stake from
    the highest user ids first, unBond accepts only nodes in their unbond
    period, and a delegator whose stake offer went unsold long enough can
    force nodes to unstake (forceUnstake), drawing on their own stake first. */
module NodeActivation {
  import opened Common
  import opened NodeConfig
  import opened NodeGuards
  import FL = FundLedger

  const NotEnoughUserStake: string := "not enough user stake"
  const NotEnoughActiveStake: string := "not enough active stake"

  /** The stake movement of _perform_deactivate_nodes: the requester, when
      there is one, gives up as much of the stake as they hold first; the
      rest comes from the other users, highest id first. */
  function DeactivationDraw(l: FL.Ledger, requester: Option<nat>, stake: nat, n: nat): FL.Draw
  {
    var first := if requester.Some? then FL.TransformUser(l, requester.value, FL.Active, FL.PendingDeactivation, stake)
                 else FL.Draw(l, stake);
    FL.Sweep(first.ledger, FL.Active, FL.PendingDeactivation, first.rest, FL.DownIds(n))
  }

  /** With a requester among users 1..n, the deactivation takes
      min(stake, their Active stake) from them; nobody else is drawn from
      unless the requester's Active stake is used up; it succeeds exactly
      when all users together hold enough Active stake; what it takes
      arrives in PendingDeactivation; nobody's overall stake changes. */
  lemma RequesterFirst(l: FL.Ledger, u: nat, stake: nat, n: nat)
    requires 1 <= u <= n
    ensures var d := DeactivationDraw(l, Some(u), stake, n);
            var own := FL.Stake(l, u, FL.Active);
            && FL.Stake(d.ledger, u, FL.Active) == own - FL.Min(stake, own)
            && (forall v: nat :: v != u && FL.Stake(d.ledger, v, FL.Active) != FL.Stake(l, v, FL.Active)
                  ==> FL.Stake(d.ledger, u, FL.Active) == 0)
            && (d.rest == 0 <==> stake <= FL.SumUsers(l, FL.Active, n))
            && FL.SumUsers(d.ledger, FL.PendingDeactivation, n) == FL.SumUsers(l, FL.PendingDeactivation, n) + (stake - d.rest)
            && (forall v: nat :: FL.FundSum(d.ledger, v) == FL.FundSum(l, v))
  {
    var from, to := FL.Active, FL.PendingDeactivation;
    var d1 := FL.TransformUser(l, u, from, to, stake);
    var d := DeactivationDraw(l, Some(u), stake, n);
    assert d == FL.Sweep(d1.ledger, from, to, d1.rest, FL.DownIds(n));
    FL.TransformUserDraw(l, u, from, to, stake);
    FL.SweepDescOutcome(d1.ledger, from, to, d1.rest, n);
    FL.SweepLowersFrom(d1.ledger, from, to, d1.rest, FL.DownIds(n), u);
    FL.UpIdsFacts(n);
    forall k | 0 <= k < n && FL.UpIds(n)[k] != u
      ensures FL.Stake(l, FL.UpIds(n)[k], from) == FL.Stake(d1.ledger, FL.UpIds(n)[k], from)
      ensures FL.Stake(l, FL.UpIds(n)[k], to) == FL.Stake(d1.ledger, FL.UpIds(n)[k], to)
    {
    }
    FL.SumOverOne(l, d1.ledger, from, FL.UpIds(n), u);
    FL.SumOverOne(l, d1.ledger, to, FL.UpIds(n), u);
    if d1.rest == 0 {
      assert d == d1;
    }
  }

  /** The nodes forceUnstake selects: scanning down from node i while the
      stake of the `count` nodes already picked does not cover the offer,
      every Active node is picked. */
  function Pick(st: map<nat, NodeState>, i: nat, sale: nat, stakePerNode: nat, count: nat): seq<nat>
    decreases i
  {
    if i == 0 || sale <= count * stakePerNode then []
    else if StateIn(st, i) == Active then [i] + Pick(st, i - 1, sale, stakePerNode, count + 1)
    else Pick(st, i - 1, sale, stakePerNode, count)
  }

  /** The keys of the given node ids. */
  function KeysOf(reg: Registry, ids: seq<nat>): (r: seq<BlsKey>)
    ensures |r| == |ids| && forall j :: 0 <= j < |ids| ==> r[j] == reg.KeyOf(ids[j])
  {
    seq(|ids|, j requires 0 <= j < |ids| => reg.KeyOf(ids[j]))
  }

  /** The selection lists Active nodes among 1..i in strictly descending
      order. */
  lemma {:induction false} PickActiveDescending(st: map<nat, NodeState>, i: nat, sale: nat, stakePerNode: nat, count: nat)
    ensures forall j :: 0 <= j < |Pick(st, i, sale, stakePerNode, count)| ==>
              1 <= Pick(st, i, sale, stakePerNode, count)[j] <= i && StateIn(st, Pick(st, i, sale, stakePerNode, count)[j]) == Active
    ensures forall j, k :: 0 <= j < k < |Pick(st, i, sale, stakePerNode, count)| ==>
              Pick(st, i, sale, stakePerNode, count)[j] > Pick(st, i, sale, stakePerNode, count)[k]
    decreases i
  {
    if i == 0 || sale <= count * stakePerNode {
    } else if StateIn(st, i) == Active {
      PickActiveDescending(st, i - 1, sale, stakePerNode, count + 1);
      var q := Pick(st, i - 1, sale, stakePerNode, count + 1);
      var p := [i] + q;
      assert Pick(st, i, sale, stakePerNode, count) == p;
      forall j | 0 <= j < |p| ensures 1 <= p[j] <= i && StateIn(st, p[j]) == Active {
        if j > 0 { assert p[j] == q[j - 1]; }
      }
      forall j, k | 0 <= j < k < |p| ensures p[j] > p[k] {
        assert p[k] == q[k - 1];
        if j > 0 { assert p[j] == q[j - 1]; }
      }
    } else {
      PickActiveDescending(st, i - 1, sale, stakePerNode, count);
      assert Pick(st, i, sale, stakePerNode, count) == Pick(st, i - 1, sale, stakePerNode, count);
    }
  }

  /** Every pick was needed: the stake of the picks before the last one
      falls short of the offer. */
  lemma {:induction false} PickNeeded(st: map<nat, NodeState>, i: nat, sale: nat, stakePerNode: nat, count: nat)
    ensures var p := Pick(st, i, sale, stakePerNode, count);
            |p| > 0 ==> (count + |p| - 1) * stakePerNode < sale
    decreases i
  {
    if i == 0 || sale <= count * stakePerNode {
    } else if StateIn(st, i) == Active {
      PickNeeded(st, i - 1, sale, stakePerNode, count + 1);
    } else {
      PickNeeded(st, i - 1, sale, stakePerNode, count);
    }
  }

  /** An Active node among 1..i that was not picked lies below every pick,
      and then the picks cover the offer. */
  lemma {:induction false} PickCovers(st: map<nat, NodeState>, i: nat, sale: nat, stakePerNode: nat, count: nat, v: nat)
    requires 1 <= v <= i && StateIn(st, v) == Active && v !in Pick(st, i, sale, stakePerNode, count)
    ensures var p := Pick(st, i, sale, stakePerNode, count);
            sale <= (count + |p|) * stakePerNode && (|p| > 0 ==> v < p[|p| - 1])
    decreases i
  {
    if sale <= count * stakePerNode {
    } else if StateIn(st, i) == Active {
      var q := Pick(st, i - 1, sale, stakePerNode, count + 1);
      assert v in [i] + q ==> v in q;
      PickCovers(st, i - 1, sale, stakePerNode, count + 1, v);
      assert count + |[i] + q| == count + 1 + |q|;
    } else {
      PickCovers(st, i - 1, sale, stakePerNode, count, v);
    }
  }

  class ContractStake {
    const nodes: NodeRegistry
    const users: FL.UserData
    /** The calls issued to the staking contract, with their callback
        context, in issue order. */
    var calls: seq<AuctionCall>

    ghost predicate Valid()
      reads this, users
    {
      users.Valid()
    }

    constructor (nodes: NodeRegistry, users: FL.UserData)
      requires users.Valid()
      ensures Valid() && this.nodes == nodes && this.users == users && calls == []
    {
      this.nodes := nodes;
      this.users := users;
      calls := [];
    }

    /** activateNodes: as in the earlier version, owner only; Inactive nodes
        go to PendingActivation after the signature check, and Inactive stake
        becomes PendingActivation, lowest user ids first. */
    method ActivateNodes(caller: Address, owner: Address, stakePerNode: nat, pairs: seq<(BlsKey, Signature)>)
      returns (r: Result<()>)
      requires Valid()
      modifies nodes`stateOf, users`stake, this`calls
      ensures Valid()
      ensures caller != owner ==>
                && r == Err("only owner can activate")
                && nodes.stateOf == old(nodes.stateOf) && users.stake == old(users.stake) && calls == old(calls)
      ensures caller == owner ==>
                var mk := Mark(old(nodes.Model()), old(nodes.stateOf), Keys(pairs), SignatureChecks(pairs),
                               Inactive, PendingActivation, "node not inactive");
                var stake := |pairs| * stakePerNode;
                var d := FL.Sweep(old(users.stake), FL.Inactive, FL.PendingActivation, stake, FL.UpIds(users.numUsers));
                && nodes.stateOf == mk.states
                && (mk.fault.Some? ==> r == Err(mk.fault.value) && users.stake == old(users.stake) && calls == old(calls))
                && (mk.fault.None? ==> users.stake == d.ledger)
                && (mk.fault.None? && d.rest > 0 ==> r == Err(NotEnoughUserStake) && calls == old(calls))
                && (mk.fault.None? && d.rest == 0 ==> r == Ok(()) && calls == old(calls) + [StakeCall(mk.ids, |pairs|, stake)])
    {
      if caller != owner {
        return Err("only owner can activate");
      }
      var ids, fault := MarkNodes(nodes, Keys(pairs), SignatureChecks(pairs), Inactive, PendingActivation, "node not inactive");
      if fault.Some? {
        return Err(fault.value);
      }
      var stake := |pairs| * stakePerNode;
      r := users.TransformUserStakeAsc(FL.Inactive, FL.PendingActivation, stake);
      if r.Err? {
        return;
      }
      calls := calls + [StakeCall(ids, |pairs|, stake)];
    }

    /** auction_stake_callback: on success stake and nodes become Active,
        on failure both go back to Inactive; the stake moves lowest user ids
        first. */
    method StakeCallback(stakePerNode: nat, nodeIds: seq<nat>, outcome: CallOutcome) returns (r: Result<()>)
      requires Valid()
      modifies nodes`stateOf, users`stake
      ensures Valid()
      ensures var d := FL.Sweep(old(users.stake), FL.PendingActivation,
                                if outcome.Success? then FL.Active else FL.Inactive,
                                |nodeIds| * stakePerNode, FL.UpIds(users.numUsers));
              && users.stake == d.ledger
              && (d.rest > 0 ==> r == Err(NotEnoughUserStake) && nodes.stateOf == old(nodes.stateOf))
              && (d.rest == 0 ==> r == Ok(()) && nodes.stateOf == SetAll(old(nodes.stateOf), nodeIds,
                                                                        if outcome.Success? then Active else Inactive))
    {
      var to, s := FL.Inactive, Inactive;
      if outcome.Success? {
        to, s := FL.Active, Active;
      }
      r := users.TransformUserStakeAsc(FL.PendingActivation, to, |nodeIds| * stakePerNode);
      if r.Err? {
        return;
      }
      SetNodeStates(nodes, nodeIds, s);
    }

    /** The shared shape of the unStake and unBond callbacks: move the stake
        sent for the nodes from one fund type to another, highest user ids
        first, and, if that succeeds, set every node to s. */
    method SettleDesc(stakePerNode: nat, nodeIds: seq<nat>, from: FL.FundType, to: FL.FundType, s: NodeState)
      returns (r: Result<()>)
      requires Valid() && from != to
      modifies nodes`stateOf, users`stake
      ensures Valid()
      ensures var d := FL.Sweep(old(users.stake), from, to, |nodeIds| * stakePerNode, FL.DownIds(users.numUsers));
              && users.stake == d.ledger
              && (d.rest > 0 ==> r == Err(NotEnoughActiveStake) && nodes.stateOf == old(nodes.stateOf))
              && (d.rest == 0 ==> r == Ok(()) && nodes.stateOf == SetAll(old(nodes.stateOf), nodeIds, s))
    {
      r := users.TransformUserStakeDesc(from, to, |nodeIds| * stakePerNode);
      if r.Err? {
        return;
      }
      SetNodeStates(nodes, nodeIds, s);
    }

    /** deactivateNodes: owner only. Every key's node must be Active and
        goes to PendingDeactivation; then the stake is deactivated with no
        requester. */
    method DeactivateNodes(caller: Address, owner: Address, stakePerNode: nat, keys: seq<BlsKey>)
      returns (r: Result<()>)
      requires Valid()
      modifies nodes`stateOf, users`stake, this`calls
      ensures Valid()
      ensures caller != owner ==>
                && r == Err("only owner can deactivate")
                && nodes.stateOf == old(nodes.stateOf) && users.stake == old(users.stake) && calls == old(calls)
      ensures caller == owner ==>
                var mk := Mark(old(nodes.Model()), old(nodes.stateOf), keys, NoChecks(|keys|),
                               Active, PendingDeactivation, "node not active");
                var d := DeactivationDraw(old(users.stake), None, |keys| * stakePerNode, users.numUsers);
                && nodes.stateOf == mk.states
                && (mk.fault.Some? ==> r == Err(mk.fault.value) && users.stake == old(users.stake) && calls == old(calls))
                && (mk.fault.None? ==> users.stake == d.ledger)
                && (mk.fault.None? && d.rest > 0 ==> r == Err(NotEnoughActiveStake) && calls == old(calls))
                && (mk.fault.None? && d.rest == 0 ==> r == Ok(()) && calls == old(calls) + [UnStakeCall(mk.ids, keys)])
    {
      if caller != owner {
        return Err("only owner can deactivate");
      }
      var ids, fault := MarkNodes(nodes, keys, NoChecks(|keys|), Active, PendingDeactivation, "node not active");
      if fault.Some? {
        return Err(fault.value);
      }
      r := PerformDeactivateNodes(None, ids, keys, stakePerNode);
    }

    /** _perform_deactivate_nodes: |keys| * stake_per_node of Active stake
        becomes PendingDeactivation (the requester's own first), then the
        unstake call is issued. Node states are not touched. */
    method PerformDeactivateNodes(requester: Option<nat>, nodeIds: seq<nat>, keys: seq<BlsKey>, stakePerNode: nat)
      returns (r: Result<()>)
      requires Valid()
      modifies users`stake, this`calls
      ensures Valid()
      ensures var d := DeactivationDraw(old(users.stake), requester, |keys| * stakePerNode, users.numUsers);
              && users.stake == d.ledger
              && (d.rest > 0 ==> r == Err(NotEnoughActiveStake) && calls == old(calls))
              && (d.rest == 0 ==> r == Ok(()) && calls == old(calls) + [UnStakeCall(nodeIds, keys)])
    {
      var stake := |keys| * stakePerNode;
      if requester.Some? {
        stake := users.TransformUserStake(requester.value, FL.Active, FL.PendingDeactivation, stake);
      }
      r := users.TransformUserStakeDesc(FL.Active, FL.PendingDeactivation, stake);
      if r.Err? {
        return;
      }
      calls := calls + [UnStakeCall(nodeIds, keys)];
    }

    /** auction_unStake_callback: on success stake and nodes go to
        UnBondPeriod, on failure both go back to Active; highest user ids
        first. */
    method UnStakeCallback(stakePerNode: nat, nodeIds: seq<nat>, outcome: CallOutcome) returns (r: Result<()>)
      requires Valid()
      modifies nodes`stateOf, users`stake
      ensures Valid()
      ensures var d := FL.Sweep(old(users.stake), FL.PendingDeactivation,
                                if outcome.Success? then FL.UnBondPeriod else FL.Active,
                                |nodeIds| * stakePerNode, FL.DownIds(users.numUsers));
              && users.stake == d.ledger
              && (d.rest > 0 ==> r == Err(NotEnoughActiveStake) && nodes.stateOf == old(nodes.stateOf))
              && (d.rest == 0 ==> r == Ok(()) && nodes.stateOf == SetAll(old(nodes.stateOf), nodeIds,
                                                                        if outcome.Success? then UnBondPeriod else Active))
    {
      if outcome.Success? {
        r := SettleDesc(stakePerNode, nodeIds, FL.PendingDeactivation, FL.UnBondPeriod, UnBondPeriod);
      } else {
        r := SettleDesc(stakePerNode, nodeIds, FL.PendingDeactivation, FL.Active, Active);
      }
    }

    /** unBond: anyone may call it. Every key's node must be in its unbond
        period and goes to PendingUnBond; the nodes' UnBondPeriod stake
        becomes PendingUnBond, highest user ids first; the unbond call is
        issued. */
    method UnBond(stakePerNode: nat, keys: seq<BlsKey>) returns (r: Result<()>)
      requires Valid()
      modifies nodes`stateOf, users`stake, this`calls
      ensures Valid()
      ensures var mk := Mark(old(nodes.Model()), old(nodes.stateOf), keys, NoChecks(|keys|),
                             UnBondPeriod, PendingUnBond, "node not in unbond period");
              var d := FL.Sweep(old(users.stake), FL.UnBondPeriod, FL.PendingUnBond, |keys| * stakePerNode,
                                FL.DownIds(users.numUsers));
              && nodes.stateOf == mk.states
              && (mk.fault.Some? ==> r == Err(mk.fault.value) && users.stake == old(users.stake) && calls == old(calls))
              && (mk.fault.None? ==> users.stake == d.ledger)
              && (mk.fault.None? && d.rest > 0 ==> r == Err(NotEnoughActiveStake) && calls == old(calls))
              && (mk.fault.None? && d.rest == 0 ==> r == Ok(()) && calls == old(calls) + [UnBondCall(mk.ids, keys)])
    {
      var ids, fault := MarkNodes(nodes, keys, NoChecks(|keys|), UnBondPeriod, PendingUnBond, "node not in unbond period");
      if fault.Some? {
        return Err(fault.value);
      }
      r := users.TransformUserStakeDesc(FL.UnBondPeriod, FL.PendingUnBond, |keys| * stakePerNode);
      if r.Err? {
        return;
      }
      calls := calls + [UnBondCall(ids, keys)];
    }

    /** auction_unBond_callback: on success stake and nodes become Inactive,
        on failure both go back to UnBondPeriod; highest user ids first. */
    method UnBondCallback(stakePerNode: nat, nodeIds: seq<nat>, outcome: CallOutcome) returns (r: Result<()>)
      requires Valid()
      modifies nodes`stateOf, users`stake
      ensures Valid()
      ensures var d := FL.Sweep(old(users.stake), FL.PendingUnBond,
                                if outcome.Success? then FL.Inactive else FL.UnBondPeriod,
                                |nodeIds| * stakePerNode, FL.DownIds(users.numUsers));
              && users.stake == d.ledger
              && (d.rest > 0 ==> r == Err(NotEnoughActiveStake) && nodes.stateOf == old(nodes.stateOf))
              && (d.rest == 0 ==> r == Ok(()) && nodes.stateOf == SetAll(old(nodes.stateOf), nodeIds,
                                                                        if outcome.Success? then Inactive else UnBondPeriod))
    {
      if outcome.Success? {
        r := SettleDesc(stakePerNode, nodeIds, FL.PendingUnBond, FL.Inactive, Inactive);
      } else {
        r := SettleDesc(stakePerNode, nodeIds, FL.PendingUnBond, FL.UnBondPeriod, UnBondPeriod);
      }
    }

    /** The scan of forceUnstake: from the highest node id down, pick Active
        nodes while the stake of the picks does not cover the offer. */
    method SelectNodes(sale: nat, stakePerNode: nat) returns (ids: seq<nat>, keys: seq<BlsKey>)
      ensures ids == Pick(nodes.stateOf, nodes.numNodes, sale, stakePerNode, 0)
      ensures keys == KeysOf(nodes.Model(), ids)
    {
      ids, keys := [], [];
      var i: nat := nodes.numNodes;
      var nodeStake := 0;
      while i > 0 && sale > nodeStake
        invariant i <= nodes.numNodes
        invariant nodeStake == |ids| * stakePerNode
        invariant ids + Pick(nodes.stateOf, i, sale, stakePerNode, |ids|) == Pick(nodes.stateOf, nodes.numNodes, sale, stakePerNode, 0)
        invariant keys == KeysOf(nodes.Model(), ids)
      {
        if StateIn(nodes.stateOf, i) == Active {
          nodeStake := nodeStake + stakePerNode;
          ids := ids + [i];
          keys := keys + [nodes.Model().KeyOf(i)];
        }
        i := i - 1;
      }
    }

    /** forceUnstake: only a delegator with stake on offer whose offer is
        older than the grace period may call it; the nodes Pick selects are
        deactivated with the caller as requester. Their states are left
        as they are. */
    method ForceUnstake(caller: Address, now: nat, timeBeforeForceUnstake: nat, stakePerNode: nat)
      returns (r: Result<()>)
      requires Valid()
      modifies users`stake, this`calls
      ensures Valid()
      ensures var u := old(users.UserId(caller));
              var sale := ValueAt(users.stakeForSale, u);
              var ids := Pick(nodes.stateOf, nodes.numNodes, sale, stakePerNode, 0);
              var d := DeactivationDraw(old(users.stake), Some(u), |ids| * stakePerNode, users.numUsers);
              && (u == 0 ==> r == Err("only delegators can call forceUnstake"))
              && (u != 0 && sale == 0 ==>
                    r == Err("only delegators that are trying to sell stake can call forceUnstake"))
              && (u != 0 && sale != 0 && now <= ValueAt(users.offerTime, u) + timeBeforeForceUnstake ==>
                    r == Err("too soon to call forceUnstake"))
              && (u == 0 || sale == 0 || now <= ValueAt(users.offerTime, u) + timeBeforeForceUnstake ==>
                    users.stake == old(users.stake) && calls == old(calls))
              && (u != 0 && sale != 0 && now > ValueAt(users.offerTime, u) + timeBeforeForceUnstake ==>
                    && users.stake == d.ledger
                    && (d.rest > 0 ==> r == Err(NotEnoughActiveStake) && calls == old(calls))
                    && (d.rest == 0 ==> r == Ok(())
                                        && calls == old(calls) + [UnStakeCall(ids, KeysOf(nodes.Model(), ids))]))
    {
      var u := users.UserId(caller);
      if u == 0 {
        return Err("only delegators can call forceUnstake");
      }
      var sale := ValueAt(users.stakeForSale, u);
      if sale == 0 {
        return Err("only delegators that are trying to sell stake can call forceUnstake");
      }
      if now <= ValueAt(users.offerTime, u) + timeBeforeForceUnstake {
        return Err("too soon to call forceUnstake");
      }
      var ids, keys := SelectNodes(sale, stakePerNode);
      r := PerformDeactivateNodes(Some(u), ids, keys, stakePerNode);
    }
  }

  /** deactivateNodes leaves every deactivated node in PendingDeactivation. */
  lemma DeactivateLeavesPendingDeactivation(reg: Registry, st: map<nat, NodeState>, keys: seq<BlsKey>, i: nat)
    requires Passes(st, IdsOf(reg, keys), NoChecks(|keys|), Active) && i in IdsOf(reg, keys)
    ensures var mk := Mark(reg, st, keys, NoChecks(|keys|), Active, PendingDeactivation, "node not active");
            mk.fault.None? && StateIn(mk.states, i) == PendingDeactivation
  {
    MarkOk(reg, st, keys, NoChecks(|keys|), Active, PendingDeactivation, "node not active");
    SetAllEffect(st, IdsOf(reg, keys), PendingDeactivation, i);
  }

  /** unBond accepts a node in its unbond period and refuses an Active one. */
  lemma UnBondChecksUnBondPeriod(reg: Registry, st: map<nat, NodeState>, k: BlsKey)
    ensures StateIn(st, reg.NodeId(k)) == UnBondPeriod ==>
              Mark(reg, st, [k], NoChecks(1), UnBondPeriod, PendingUnBond, "node not in unbond period").fault.None?
    ensures StateIn(st, reg.NodeId(k)) == Active ==>
              Mark(reg, st, [k], NoChecks(1), UnBondPeriod, PendingUnBond, "node not in unbond period").fault
                == Some("node not in unbond period")
  {
    assert [k][..0] == [];
    assert NoChecks(1)[..0] == [];
  }
}

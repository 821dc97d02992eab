/** The earlier version of the activation saga: activate, deactivate and
    unbond validator nodes, each in two halves (the endpoint, which guards the
    node states and issues a call to the staking contract, and the callback,
    which settles nodes and stake on the call's outcome). Stake moves between
    fund types through the ascending user sweep only. */
module StakePerNode {
  import opened Common
  import opened NodeConfig
  import opened NodeGuards
  import FL = FundLedger

  const NotEnoughUserStake: string := "not enough user stake"

  class ContractStake {
    const nodes: NodeRegistry
    const users: FL.UserData
    var totalActiveStake: nat
    /** The calls issued to the staking contract, with their callback
        context, in issue order. */
    var calls: seq<AuctionCall>

    ghost predicate Valid()
      reads this, users
    {
      users.Valid()
    }

    constructor (nodes: NodeRegistry, users: FL.UserData)
      requires users.Valid()
      ensures Valid() && this.nodes == nodes && this.users == users
      ensures totalActiveStake == 0 && calls == []
    {
      this.nodes := nodes;
      this.users := users;
      totalActiveStake := 0;
      calls := [];
    }

    /** activateNodes: owner only. Every key's node must be Inactive and
        goes to PendingActivation, every signature must have the right
        length; then num_nodes * stake_per_node of Inactive stake becomes
        PendingActivation, lowest user ids first, and the stake call is
        issued with the node ids as callback context. */
    method ActivateNodes(caller: Address, owner: Address, stakePerNode: nat, pairs: seq<(BlsKey, Signature)>)
      returns (r: Result<()>)
      requires Valid()
      modifies nodes`stateOf, users`stake, this`calls
      ensures Valid()
      ensures caller != owner ==>
                && r == Err("only owner can activate")
                && nodes.stateOf == old(nodes.stateOf) && users.stake == old(users.stake) && calls == old(calls)
      ensures caller == owner ==>
                var mk := Mark(old(nodes.Model()), old(nodes.stateOf), Keys(pairs), SignatureChecks(pairs),
                               Inactive, PendingActivation, "node not inactive");
                var stake := |pairs| * stakePerNode;
                var d := FL.Sweep(old(users.stake), FL.Inactive, FL.PendingActivation, stake, FL.UpIds(users.numUsers));
                && nodes.stateOf == mk.states
                && (mk.fault.Some? ==> r == Err(mk.fault.value) && users.stake == old(users.stake) && calls == old(calls))
                && (mk.fault.None? ==> users.stake == d.ledger)
                && (mk.fault.None? && d.rest > 0 ==> r == Err(NotEnoughUserStake) && calls == old(calls))
                && (mk.fault.None? && d.rest == 0 ==> r == Ok(()) && calls == old(calls) + [StakeCall(mk.ids, |pairs|, stake)])
    {
      if caller != owner {
        return Err("only owner can activate");
      }
      var ids, fault := MarkNodes(nodes, Keys(pairs), SignatureChecks(pairs), Inactive, PendingActivation, "node not inactive");
      if fault.Some? {
        return Err(fault.value);
      }
      var stake := |pairs| * stakePerNode;
      r := users.TransformUserStakeAsc(FL.Inactive, FL.PendingActivation, stake);
      if r.Err? {
        return;
      }
      calls := calls + [StakeCall(ids, |pairs|, stake)];
    }

    /** The shared shape of the three callbacks: move the stake sent for the
        nodes (|node_ids| * stake_per_node) from one fund type to another,
        lowest user ids first, and, if that succeeds, set every node to s. */
    method Settle(stakePerNode: nat, nodeIds: seq<nat>, from: FL.FundType, to: FL.FundType, s: NodeState)
      returns (r: Result<()>)
      requires Valid() && from != to
      modifies nodes`stateOf, users`stake
      ensures Valid()
      ensures var d := FL.Sweep(old(users.stake), from, to, |nodeIds| * stakePerNode, FL.UpIds(users.numUsers));
              && users.stake == d.ledger
              && (d.rest > 0 ==> r == Err(NotEnoughUserStake) && nodes.stateOf == old(nodes.stateOf))
              && (d.rest == 0 ==> r == Ok(()) && nodes.stateOf == SetAll(old(nodes.stateOf), nodeIds, s))
    {
      r := users.TransformUserStakeAsc(from, to, |nodeIds| * stakePerNode);
      if r.Err? {
        return;
      }
      SetNodeStates(nodes, nodeIds, s);
    }

    /** auction_stake_callback: on success the stake becomes Active, the
        total active stake grows by the stake sent and the nodes become
        Active; on failure stake and nodes go back to Inactive. */
    method StakeCallback(stakePerNode: nat, nodeIds: seq<nat>, outcome: CallOutcome) returns (r: Result<()>)
      requires Valid()
      modifies nodes`stateOf, users`stake, this`totalActiveStake
      ensures Valid()
      ensures var sent := |nodeIds| * stakePerNode;
              var d := FL.Sweep(old(users.stake), FL.PendingActivation,
                                if outcome.Success? then FL.Active else FL.Inactive, sent, FL.UpIds(users.numUsers));
              && users.stake == d.ledger
              && (d.rest > 0 ==> r == Err(NotEnoughUserStake) && nodes.stateOf == old(nodes.stateOf)
                                 && totalActiveStake == old(totalActiveStake))
              && (d.rest == 0 ==> r == Ok(())
                                  && nodes.stateOf == SetAll(old(nodes.stateOf), nodeIds, if outcome.Success? then Active else Inactive)
                                  && totalActiveStake == old(totalActiveStake) + (if outcome.Success? then sent else 0))
    {
      if outcome.Success? {
        r := users.TransformUserStakeAsc(FL.PendingActivation, FL.Active, |nodeIds| * stakePerNode);
        if r.Err? {
          return;
        }
        totalActiveStake := totalActiveStake + |nodeIds| * stakePerNode;
        SetNodeStates(nodes, nodeIds, Active);
      } else {
        r := Settle(stakePerNode, nodeIds, FL.PendingActivation, FL.Inactive, Inactive);
      }
    }

    /** deactivateNodes: owner only. Every key's node must be Active and is
        set to PendingActivation (as written); then the nodes' stake becomes
        PendingDeactivation, lowest user ids first, the total active stake
        drops by it (an underflow aborts) and the unstake call is issued. */
    method DeactivateNodes(caller: Address, owner: Address, stakePerNode: nat, keys: seq<BlsKey>)
      returns (r: Result<()>)
      requires Valid()
      modifies nodes`stateOf, users`stake, this`totalActiveStake, this`calls
      ensures Valid()
      ensures caller != owner ==>
                && r == Err("only owner can deactivate")
                && nodes.stateOf == old(nodes.stateOf) && users.stake == old(users.stake)
                && totalActiveStake == old(totalActiveStake) && calls == old(calls)
      ensures caller == owner ==>
                var mk := Mark(old(nodes.Model()), old(nodes.stateOf), keys, NoChecks(|keys|),
                               Active, PendingActivation, "node not active");
                var stake := |keys| * stakePerNode;
                var d := FL.Sweep(old(users.stake), FL.Active, FL.PendingDeactivation, stake, FL.UpIds(users.numUsers));
                && nodes.stateOf == mk.states
                && (mk.fault.Some? ==> r == Err(mk.fault.value) && users.stake == old(users.stake))
                && (mk.fault.None? ==> users.stake == d.ledger)
                && (mk.fault.None? && d.rest > 0 ==> r == Err(NotEnoughUserStake))
                && (mk.fault.None? && d.rest == 0 && stake > old(totalActiveStake) ==> r == Err(UnderflowPanic))
                && (r.Err? ==> totalActiveStake == old(totalActiveStake) && calls == old(calls))
                && (r.Ok? <==> mk.fault.None? && d.rest == 0 && stake <= old(totalActiveStake))
                && (r.Ok? ==> totalActiveStake == old(totalActiveStake) - stake
                              && calls == old(calls) + [UnStakeCall(mk.ids, keys)])
    {
      if caller != owner {
        return Err("only owner can deactivate");
      }
      var ids, fault := MarkNodes(nodes, keys, NoChecks(|keys|), Active, PendingActivation, "node not active");
      if fault.Some? {
        return Err(fault.value);
      }
      var stake := |keys| * stakePerNode;
      r := users.TransformUserStakeAsc(FL.Active, FL.PendingDeactivation, stake);
      if r.Err? {
        return;
      }
      if stake > totalActiveStake {
        return Err(UnderflowPanic);
      }
      totalActiveStake := totalActiveStake - stake;
      calls := calls + [UnStakeCall(ids, keys)];
    }

    /** auction_unStake_callback: on success stake and nodes go to
        UnBondPeriod; on failure both go back to Active (the total active
        stake is not restored). */
    method UnStakeCallback(stakePerNode: nat, nodeIds: seq<nat>, outcome: CallOutcome) returns (r: Result<()>)
      requires Valid()
      modifies nodes`stateOf, users`stake
      ensures Valid()
      ensures var d := FL.Sweep(old(users.stake), FL.PendingDeactivation,
                                if outcome.Success? then FL.UnBondPeriod else FL.Active,
                                |nodeIds| * stakePerNode, FL.UpIds(users.numUsers));
              && users.stake == d.ledger
              && (d.rest > 0 ==> r == Err(NotEnoughUserStake) && nodes.stateOf == old(nodes.stateOf))
              && (d.rest == 0 ==> r == Ok(()) && nodes.stateOf == SetAll(old(nodes.stateOf), nodeIds,
                                                                        if outcome.Success? then UnBondPeriod else Active))
    {
      if outcome.Success? {
        r := Settle(stakePerNode, nodeIds, FL.PendingDeactivation, FL.UnBondPeriod, UnBondPeriod);
      } else {
        r := Settle(stakePerNode, nodeIds, FL.PendingDeactivation, FL.Active, Active);
      }
    }

    /** unBond: anyone may call it. Every key's node must be Active (as
        written) and is set to PendingUnBond; no stake moves; the unbond call
        is issued. */
    method UnBond(keys: seq<BlsKey>) returns (r: Result<()>)
      modifies nodes`stateOf, this`calls
      ensures var mk := Mark(old(nodes.Model()), old(nodes.stateOf), keys, NoChecks(|keys|),
                             Active, PendingUnBond, "node not in unbond period");
              && nodes.stateOf == mk.states
              && (mk.fault.Some? ==> r == Err(mk.fault.value) && calls == old(calls))
              && (mk.fault.None? ==> r == Ok(()) && calls == old(calls) + [UnBondCall(mk.ids, keys)])
    {
      var ids, fault := MarkNodes(nodes, keys, NoChecks(|keys|), Active, PendingUnBond, "node not in unbond period");
      if fault.Some? {
        return Err(fault.value);
      }
      calls := calls + [UnBondCall(ids, keys)];
      r := Ok(());
    }

    /** auction_unBond_callback: on success stake and nodes become Inactive;
        on failure both go back to UnBondPeriod. */
    method UnBondCallback(stakePerNode: nat, nodeIds: seq<nat>, outcome: CallOutcome) returns (r: Result<()>)
      requires Valid()
      modifies nodes`stateOf, users`stake
      ensures Valid()
      ensures var d := FL.Sweep(old(users.stake), FL.PendingUnBond,
                                if outcome.Success? then FL.Inactive else FL.UnBondPeriod,
                                |nodeIds| * stakePerNode, FL.UpIds(users.numUsers));
              && users.stake == d.ledger
              && (d.rest > 0 ==> r == Err(NotEnoughUserStake) && nodes.stateOf == old(nodes.stateOf))
              && (d.rest == 0 ==> r == Ok(()) && nodes.stateOf == SetAll(old(nodes.stateOf), nodeIds,
                                                                        if outcome.Success? then Inactive else UnBondPeriod))
    {
      if outcome.Success? {
        r := Settle(stakePerNode, nodeIds, FL.PendingUnBond, FL.Inactive, Inactive);
      } else {
        r := Settle(stakePerNode, nodeIds, FL.PendingUnBond, FL.UnBondPeriod, UnBondPeriod);
      }
    }
  }

  /** As written, a successful deactivateNodes leaves every deactivated node
      in PendingActivation, not PendingDeactivation. */
  lemma DeactivateLeavesPendingActivation(reg: Registry, st: map<nat, NodeState>, keys: seq<BlsKey>, i: nat)
    requires Passes(st, IdsOf(reg, keys), NoChecks(|keys|), Active) && i in IdsOf(reg, keys)
    ensures var mk := Mark(reg, st, keys, NoChecks(|keys|), Active, PendingActivation, "node not active");
            mk.fault.None? && StateIn(mk.states, i) == PendingActivation && StateIn(mk.states, i) != PendingDeactivation
  {
    MarkOk(reg, st, keys, NoChecks(|keys|), Active, PendingActivation, "node not active");
    SetAllEffect(st, IdsOf(reg, keys), PendingActivation, i);
  }

  /** As written, unBond refuses a node that is in its unbond period and
      accepts an Active one. */
  lemma UnBondChecksActive(reg: Registry, st: map<nat, NodeState>, k: BlsKey)
    ensures StateIn(st, reg.NodeId(k)) == UnBondPeriod ==>
              Mark(reg, st, [k], NoChecks(1), Active, PendingUnBond, "node not in unbond period").fault
                == Some("node not in unbond period")
    ensures StateIn(st, reg.NodeId(k)) == Active ==>
              Mark(reg, st, [k], NoChecks(1), Active, PendingUnBond, "node not in unbond period").fault.None?
  {
    assert [k][..0] == [];
    assert NoChecks(1)[..0] == [];
  }
}

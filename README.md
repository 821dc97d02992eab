# Staking delegation contract: verified model of the core

This project is a Dafny model of the core of a staking-delegation smart
contract. Delegators pool stake in it. The owner runs validator nodes
with that stake through an external staking (auction) contract. The
contract distributes the rewards. The model covers these parts:

- **NodeConfig** (`node_config.dfy`): the validator node registry.
  - BLS keys are mapped to dense node ids, in both directions.
  - Each node has a lifecycle state and a signature.
  - Operations: `addNodes`, `removeNodes`, the state and signature views,
    and the split of a callback's node ids into ok and failed ids.
- **NodeGuards** (`node_guards.dfy`): the guard loop that every saga
  endpoint runs before it moves stake, as one specification function
  (`Mark`) and one method (`MarkNodes`).
  - For each key, the node id is collected.
  - The node must be in the required state.
  - The node is moved to a pending state.
  - An argument check may then fail.
  - `SetNodeStates` is the loop each callback uses to settle the nodes.
- **FundLedger** (`fund_ledger.dfy`): each user's stake, split by fund
  type. It holds `transform_user_stake` and its two sweeps, over user ids
  ascending and descending, which move a requested amount from one fund
  type to another one user at a time.
- **StakePerNode** (`stake_per_node.dfy`): the earlier activation saga.
  It covers activate, deactivate and unbond, each as an endpoint plus a
  callback.
- **NodeActivation** (`node_activation.dfy`): the later saga.
  - Deactivation and unbonding draw stake from the highest user ids first.
  - `forceUnstake` lets a delegator whose stake offer went unsold deactivate
    enough nodes to cover the offer. Their own Active stake is drawn first.
- **Rewards** (`rewards.dfy`): checkpoint-based reward accounting.
  - The service-fee split.
  - Lazy per-user updates.
  - The claimable and total-unclaimed views.
  - The claim.
  - The unprotected-balance view.
- **StakeSale** (`stake_sale.dfy`): delegators can offer Active stake for
  sale. Anyone may buy it one-for-one, and the payment is forwarded to the
  seller.
- **Unexpected** (`unexpected.dfy`): the owner can withdraw funds that are
  not accounted for.

How the source is mapped:

- **Storage.** Contract storage becomes classes whose fields the
  endpoints reassign: `NodeRegistry`, `UserData`, `ContractStake`,
  `RewardStore` and `StakeMarket`. Each loop of the source is a `while`
  loop, proved against a specification function of the old state.
- **Unwritten storage.** Storage that was never written reads as 0, or
  as the first enum variant (`Inactive`).
- **Failures.** An abort is modelled as an `Err` result, and so is a
  big-integer underflow or division by zero. Writes made before such a
  failure stay in the model; the host's rollback of a failed call is not
  modelled.
- **External effects.** Calls to the staking contract are recorded as
  `AuctionCall` values together with their callback context. Outgoing
  transfers are recorded as `Transfer` values.
- **Inputs.** The caller, the owner, the block time, the contract
  balance, the stake per node and the callback outcome are parameters.
- **Constants.** The constants come from files that are not part of this
  model:
  - owner user id 1;
  - the user id that holds the per-type totals, 0;
  - the percentage denominator, 10000;
  - the BLS signature length, 48 bytes.

## Model

| member | source | states |
|---|---|---|
| NodeConfig.NodeRegistry.GetNodeSignature | node-storage/src/node_config.rs:49-60 | None exactly for an unregistered key; otherwise the signature stored for its node |
| NodeConfig.NodeRegistry.GetNodeStateOfKey | node-storage/src/node_config.rs:69-77 | Removed for an unregistered key; otherwise its node's stored state (Inactive if never written) |
| NodeConfig.NodeRegistry.GetAllNodeStates | node-storage/src/node_config.rs:79-90 | one (key, state) entry per node id 1..num_nodes, in ascending id order |
| NodeConfig.NodeRegistry.SetNodeState | node-storage/src/node_config.rs:66-67 | only the given node's state changes, to the given state |
| NodeConfig.NodeRegistry.AddNodes | node-storage/src/node_config.rs:107-136 | non-owner rejected with no change; otherwise the storage is the add loop's result; on an error the map writes stay but num_nodes is not stored |
| NodeConfig.AddOneOk | node-storage/src/node_config.rs:119-129 | an unknown key gets the next id, state Inactive and its signature; a removed key's node is revived with the new signature; the registry stays consistent |
| NodeConfig.AddOneFails | node-storage/src/node_config.rs:127-131 | a key whose node is not Removed fails with "node already registered" and writes nothing |
| NodeConfig.AddLoopOk | node-storage/src/node_config.rs:116-135 | distinct admissible keys: no error, the id maps stay inverse and dense, num_nodes grows by the number of unknown keys, every key is registered Inactive with its signature, other nodes are untouched |
| NodeConfig.AddLoopFails | node-storage/src/node_config.rs:117-132 | a repeated key, or a key already registered and not Removed, makes the loop fail with "node already registered" |
| NodeConfig.NodeRegistry.RemoveNodes | node-storage/src/node_config.rs:138-156 | non-owner rejected with no change; otherwise the state is the remove loop's result, and the result is its error or Ok |
| NodeConfig.RemoveLoopOk | node-storage/src/node_config.rs:145-153 | distinct registered Inactive keys: no error, exactly their nodes become Removed, everything else is unchanged |
| NodeConfig.RemoveLoopFails | node-storage/src/node_config.rs:145-151 | an unregistered key, a non-Inactive node or a repeated key makes the loop fail, with "node not registered" or "only inactive nodes can be removed" |
| NodeConfig.RemoveFaultKinds | node-storage/src/node_config.rs:147-151 | whenever the remove loop fails, its error is one of those two messages |
| NodeConfig.NodeRegistry.SplitNodeIdsByErr | node-storage/src/node_config.rs:158-177 | ok and failed together are a permutation of the ids; a failed id was listed and reported with a nonzero status; for distinct ids, an id stays ok iff it was not reported |
| NodeConfig.SwapRemove | node-storage/src/node_config.rs:170 | one element shorter, and the removed element plus the rest is the original multiset |
| NodeConfig.Position | node-storage/src/node_config.rs:169 | None iff absent; otherwise the index of the first occurrence |
| NodeGuards.MarkNodes | src/stake_per_node.rs:122-139 | the node states, collected ids and error after the loop equal the guard specification `Mark` over the keys |
| NodeGuards.SetNodeStates | src/stake_per_node.rs:180-182 | the node states become the old ones with every listed node set to the given state |
| NodeGuards.SetAllEffect | src/stake_per_node.rs:180-182 | after the settle loop a listed node is in the given state, and any other node keeps its state |
| NodeGuards.MarkOk | src/node_activation.rs:141-148 | over distinct nodes all in the required state with all checks passing, the guard succeeds, collects exactly the keys' ids and sets exactly those nodes to the target |
| NodeGuards.MarkFails | src/node_activation.rs:141-148 | otherwise (a repeated node, a node in the wrong state, a failed check) the guard fails with its message or the signature-length message |
| NodeGuards.MarkFaultSticks | src/node_activation.rs:144-146 | once the guard has failed, the later keys change nothing |
| NodeGuards.MarkFaultIsMsg | src/node_activation.rs:141-148 | without argument checks, the only error is the guard's own message |
| FundLedger.UserData.TransformUserStake | src/stake_per_node.rs:57-73 | the ledger and the returned remainder equal the single-user draw `TransformUser`; the storage invariant is kept |
| FundLedger.TransformUserAmounts | src/stake_per_node.rs:57-73 | the draw is min(supply, balance): it leaves `from`, arrives in `to`, is taken off the supply, and a positive remainder means `from` is drained |
| FundLedger.TransformUserFundSum | src/stake_per_node.rs:57-73 | a draw never changes any user's stake over all fund types |
| FundLedger.UserData.TransformUserStakeAsc | src/stake_per_node.rs:78-92 | the new ledger is the sweep over ids 1..num_users; the result is "not enough user stake" iff something remains; the storage invariant is kept |
| FundLedger.UserData.TransformUserStakeDesc | src/stake_per_node.rs:95-108 | the new ledger is the sweep over ids num_users..1; the result is "not enough active stake" iff something remains; the storage invariant is kept |
| FundLedger.SweepAscOutcome | src/stake_per_node.rs:78-92 | succeeds iff the users' `from` balances cover the amount; on failure all are drained; exactly the amount taken leaves `from` and arrives in `to`; a user is drawn from only after every lower id is drained; nothing else changes; nobody's overall stake changes |
| FundLedger.SweepDescOutcome | src/stake_per_node.rs:95-108 | the same as the ascending sweep, with higher ids drained first |
| FundLedger.SweepRest | src/stake_per_node.rs:82-91 | over distinct users, what remains is exactly the part of the request their `from` balances could not cover |
| FundLedger.SweepDrains | src/stake_per_node.rs:82-88 | a sweep that leaves something unmet has drained every user in its order |
| FundLedger.SweepGreedy | src/stake_per_node.rs:82-85 | a user's balance changes only if every user before it in the order was drained |
| FundLedger.SweepFundSum | src/stake_per_node.rs:82-85 | a sweep never changes any user's overall stake |
| FundLedger.SweepConsistent | src/stake_per_node.rs:78-108 | a sweep keeps the user storage invariant: each user's overall stake equals their total stake |
| FundLedger.UserData.NewUser | src/stake_sale.rs:96 | the next user id is handed out, and the invariant is kept |
| FundLedger.UserData.SetUserId | src/stake_sale.rs:97 | the address is mapped to the id, and the invariant is kept |
| StakePerNode.ContractStake.ActivateNodes | src/stake_per_node.rs:112-154 | non-owner rejected; node states after the guard (Inactive required, PendingActivation set, signature length checked); on a guard error, no stake move and no call; otherwise Inactive stake moves to PendingActivation in ascending order, and the stake call is issued iff the sweep met the amount |
| StakePerNode.ContractStake.StakeCallback | src/stake_per_node.rs:159-202 | the sent stake moves from PendingActivation to Active (success) or Inactive (failure) ascending; if that succeeds the nodes are set likewise and, on success, the total active stake grows by the stake sent |
| StakePerNode.ContractStake.Settle | src/stake_per_node.rs:187-194 | the ledger is the ascending sweep; nodes are settled iff the sweep met the amount |
| StakePerNode.ContractStake.DeactivateNodes | src/stake_per_node.rs:210-249 | non-owner rejected; guard Active to PendingActivation; Active stake moves to PendingDeactivation in ascending order; the total active stake drops by the stake, or the call fails with an underflow; the unstake call is issued on success |
| StakePerNode.ContractStake.UnStakeCallback | src/stake_per_node.rs:254-288 | the stake moves from PendingDeactivation to UnBondPeriod (success) or Active (failure), ascending; if that succeeds the nodes follow |
| StakePerNode.ContractStake.UnBond | src/stake_per_node.rs:294-315 | guard Active to PendingUnBond; no stake moves; the unbond call is issued iff the guard passes |
| StakePerNode.ContractStake.UnBondCallback | src/stake_per_node.rs:320-354 | the stake moves from PendingUnBond to Inactive (success) or UnBondPeriod (failure), ascending; if that succeeds the nodes follow |
| StakePerNode.DeactivateLeavesPendingActivation | src/stake_per_node.rs:222-229 | as written, a successful deactivation leaves each deactivated node in PendingActivation, not PendingDeactivation |
| StakePerNode.UnBondChecksActive | src/stake_per_node.rs:298-303 | as written, unBond refuses a node in its unbond period and accepts an Active one |
| NodeActivation.RequesterFirst | src/node_activation.rs:164-174 | the requester gives min(stake, their Active stake) first; nobody else is drawn from unless that is used up; success iff all Active stake covers it; the total PendingDeactivation grows by what is taken; overall stakes unchanged |
| NodeActivation.ContractStake.ActivateNodes | src/node_activation.rs:40-82 | as in the earlier version: non-owner rejected; the guard; the ascending Inactive to PendingActivation sweep; the stake call iff it met the amount |
| NodeActivation.ContractStake.StakeCallback | src/node_activation.rs:87-125 | the sent stake moves from PendingActivation to Active or Inactive, ascending; nodes follow iff it succeeds |
| NodeActivation.ContractStake.SettleDesc | src/node_activation.rs:196-219 | the ledger is the descending sweep; nodes are settled iff it met the amount |
| NodeActivation.ContractStake.DeactivateNodes | src/node_activation.rs:133-151 | non-owner rejected; guard Active to PendingDeactivation; then the deactivation draw with no requester, and the unstake call iff it met the amount |
| NodeActivation.ContractStake.PerformDeactivateNodes | src/node_activation.rs:154-184 | the ledger is the requester-first, then descending, draw of the keys' stake; the unstake call is issued iff the draw met the amount; node states untouched |
| NodeActivation.ContractStake.UnStakeCallback | src/node_activation.rs:189-223 | the stake moves from PendingDeactivation to UnBondPeriod or Active, descending; nodes follow iff it succeeds |
| NodeActivation.ContractStake.UnBond | src/node_activation.rs:229-253 | guard UnBondPeriod to PendingUnBond; the UnBondPeriod stake moves to PendingUnBond, descending; the unbond call iff both succeed |
| NodeActivation.ContractStake.UnBondCallback | src/node_activation.rs:258-293 | the stake moves from PendingUnBond to Inactive or UnBondPeriod, descending; nodes follow iff it succeeds |
| NodeActivation.ContractStake.SelectNodes | src/node_activation.rs:315-328 | the selected ids are the specification `Pick` from the highest node id down, and the keys are those ids' keys |
| NodeActivation.PickActiveDescending | src/node_activation.rs:321-327 | only Active nodes among 1..num_nodes are picked, in strictly descending order |
| NodeActivation.PickNeeded | src/node_activation.rs:321 | every pick was needed: the picks before the last fall short of the offer |
| NodeActivation.PickCovers | src/node_activation.rs:321-327 | if an Active node was left out, the picks cover the offer, and that node lies below every pick |
| NodeActivation.ContractStake.ForceUnstake | src/node_activation.rs:298-331 | the three error cases (not a delegator, nothing on offer, too soon), each with no change; otherwise the picked nodes' stake is drawn with the caller as requester, and the unstake call is issued iff it met the amount |
| NodeActivation.DeactivateLeavesPendingDeactivation | src/node_activation.rs:141-148 | a successful deactivation leaves each deactivated node in PendingDeactivation |
| NodeActivation.UnBondChecksUnBondPeriod | src/node_activation.rs:233-239 | unBond accepts a node in its unbond period and refuses an Active one |
| Rewards.SplitServiceReward | v0_5/src/rewards.rs:102-116 | fails (underflow) iff the fee exceeds 10000; each part is at most the total, and the two parts add up to the total or one less |
| Rewards.Share | v0_5/src/rewards.rs:146-148 | the floor share of a part never exceeds the part while the user's stake does not exceed the total |
| Rewards.ShareAdd | v0_5/src/rewards.rs:146-148 | shares computed separately add up to at most the share of the combined stake |
| Rewards.SharesWithinPart | v0_5/src/rewards.rs:139-150 | users whose Active stakes add up to at most the total are owed at most the delegators' part in all |
| Rewards.LoadOutcome | v0_5/src/rewards.rs:119-156 | fails exactly on a checkpoint beyond the counter, or, with new rewards, on a fee above 10000 or a positive stake against a zero total; otherwise the checkpoint becomes the counter and the unclaimed amount never shrinks |
| Rewards.LoadNothingNew | v0_5/src/rewards.rs:124-127 | with nothing new since the checkpoint, the stored record is returned as it is |
| Rewards.LoadIdempotent | v0_5/src/rewards.rs:119-156 | computing again right after a computation changes nothing |
| Rewards.ServiceOnlyToOwner | v0_5/src/rewards.rs:133-137 | for a user without Active stake, only the owner gains, and exactly the service part |
| Rewards.GainBound | v0_5/src/rewards.rs:131-150 | a non-owner gains at most the delegators' part, and any user gains at most what arrived since the checkpoint |
| Rewards.RewardStore.ComputeOneUserReward | v0_5/src/rewards.rs:159-162 | stores the updated record of the user, or changes nothing on failure |
| Rewards.RewardStore.GetClaimableRewards | v0_5/src/rewards.rs:166-175 | 0 for a non-user; otherwise defined iff the update is, and then at least the stored unclaimed amount |
| Rewards.RewardStore.GetTotalUnclaimedRewards | v0_5/src/rewards.rs:178-190 | the loop's result equals the specification sum of the updated unclaimed amounts over users 1..num_users |
| Rewards.SumUnclaimedFaultSticks | v0_5/src/rewards.rs:184-187 | once a user's computation fails, the whole sum fails with it |
| Rewards.SumUnclaimedPoint | v0_5/src/rewards.rs:184-187 | changing one user's record changes the total exactly by the change in that user's updated amount |
| Rewards.ComputeKeepsTotal | v0_5/src/rewards.rs:159-162 | storing one user's updated record leaves the total unclaimed rewards unchanged |
| Rewards.RewardStore.SendRewards | v0_5/src/rewards.rs:224-232 | one transfer to the recipient, and the sent-rewards counter grows by the amount |
| Rewards.RewardStore.ClaimRewards | v0_5/src/rewards.rs:196-222 | the error cases (unknown caller, reset in progress, failed update) change nothing; on success the claim pays exactly the claimable amount (a transfer only when positive), zeroes it, moves the checkpoint to the counter and adds the payment to the sent rewards |
| Rewards.ClaimConserves | v0_5/src/rewards.rs:209-219 | a claim moves exactly what it pays out of the total unclaimed rewards, so the sent rewards plus the total unclaimed rewards stay the same |
| Rewards.TotalUnprotected | v0_5/src/rewards.rs:250-261 | defined iff balance + sent covers all the deductions, and then it is the surplus |
| StakeSale.StakeMarket.GetStakeForSale | src/stake_sale.rs:44-51 | 0 for a non-delegator; otherwise the sum the user offers |
| StakeSale.StakeMarket.OfferStakeForSale | src/stake_sale.rs:23-41 | succeeds iff the caller is a delegator offering at most their Active stake; the offer and its time replace the old ones; the error cases change nothing |
| StakeSale.StakeMarket.PurchaseStake | src/stake_sale.rs:57-115 | a zero payment does nothing; unknown seller, payment over the offer or over the seller's Active stake are errors; the reduced offer stays when the Active stake check fails; on success the exchange happens and the payment goes to the seller |
| StakeSale.StakeMarket.Exchange | src/stake_sale.rs:79-106 | the seller's Active and total stakes drop by the payment, the buyer's grow by it, nothing else changes, and the sum of total stakes is unchanged |
| StakeSale.StakeMarket.BuyerId | src/stake_sale.rs:93-98 | the caller's user id, or a new next id registered for them |
| StakeSale.DebitSeller | src/stake_sale.rs:79-90 | the seller's Active and total stake both drop by the payment; the invariant is kept |
| StakeSale.CreditBuyer | src/stake_sale.rs:100-106 | the buyer's total and Active stake both grow by the payment; the invariant is kept |
| StakeSale.ExchangeSteps | src/stake_sale.rs:79-106 | the debit, the buyer lookup and the credit together give the exchange's effect, self-purchase included |
| Unexpected.GetUnexpectedBalance | src/unexpected.rs:32-41 | defined iff neither subtraction underflows, and then balance + sent = expected amounts + result |
| Unexpected.DepositIsUnexpected | src/unexpected.rs:27-41 | a direct deposit raises the unexpected balance by exactly the deposit |
| Unexpected.WithdrawLeavesNone | src/unexpected.rs:51-54 | after the unexpected balance is sent away, none is left |
| Unexpected.SentBeyondCumulated | src/unexpected.rs:34-40 | for all accounts whose sent rewards exceed the cumulated rewards but not everything held, and whose balance covers the rest, the view is defined and equals the surplus: it fails only past inactive + withdraw-only + pending + cumulated, not past cumulated |
| Unexpected.SentBeyondCumulatedWitness | src/unexpected.rs:34-38 | such accounts exist (sent 3 of 1 cumulated, with 5 Inactive and a balance of 10) |
| Unexpected.WithdrawUnexpectedBalance | src/unexpected.rs:44-57 | non-owner rejected; a failing view fails the call; otherwise a positive unexpected balance is sent to the caller, and nothing is sent when it is zero |

## Left out

- `computeAllRewards`, which the sagas call before they move stake: it belongs to a rewards version that is not part of this model.
- Events and logging, in every file.
- The `feature_guard` check of `claimRewards`: the features module is not part of this model.
- The asynchronous messaging itself. Calls are recorded with their callback context, and each callback is a separate method that receives the outcome.
- The host's rollback of a failed call. Writes made before an error stay in the model, as they do within a call.
- `BLSKey::from_bytes` in activateNodes (an argument decode error): key parsing is not part of this model, and keys are byte strings.
- get_node_bl_nonce_of_unstake (node_config.rs:92-105): the modelled node state carries no block nonce for UnBondPeriod.
- getAllNodeStates returns the state itself, not its u8 discriminant.
- The per-type totals kept under user id 0 are not updated by the sweeps of this model. Rewards takes the total Active stake as an input, and Unexpected takes the other totals as inputs.
- The v0_5 fund-type ledger (Waiting, UnStaked, DeferredPayment): TotalUnprotected takes those totals as parameters.
- get_total_pending_payments and get_sc_balance come from modules that are not part of this model, so they are parameters.
- The commented-out forceUnstake and _perform_deactivate in stake_per_node.rs:356-391: they are not code.
- The activateNodes stake is |pairs| * stake_per_node, because the argument decoder fixes the number of pairs at num_nodes.
- NodeConfig.NodeRegistry.SplitNodeIdsByErr: the order of the ok list after swap_remove is stated only up to permutation.

## Findings

| source | as written | input that shows it | evidently intended | confidence | as-written member | corrected member |
|---|---|---|---|---|---|---|
| src/stake_per_node.rs:228 | deactivateNodes sets each node to PendingActivation | the owner deactivates one registered key whose node is Active | the node goes to PendingDeactivation, as in src/node_activation.rs:147 | not executed | StakePerNode.DeactivateLeavesPendingActivation | NodeActivation.DeactivateLeavesPendingDeactivation |
| src/stake_per_node.rs:301 | unBond requires the node to be Active, under the message "node not in unbond period" | unBond on a key whose node is in UnBondPeriod is refused; one whose node is Active is accepted | the node must be in UnBondPeriod, as in src/node_activation.rs:236 | not executed | StakePerNode.UnBondChecksActive | NodeActivation.UnBondChecksUnBondPeriod |

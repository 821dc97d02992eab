/** The node-state guard loops every saga endpoint runs before it moves stake
    (each key's node must be in an expected state and is moved to a pending
    one), and the loops its callbacks run to settle the nodes. */
module NodeGuards {
  import opened Common
  import opened NodeConfig

  /** Progress of a guard loop: node states written so far, the node ids
      collected (pushed before each check) and the error that stopped it. */
  datatype Marking = Marking(states: map<nat, NodeState>, ids: seq<nat>, fault: Option<string>)

  /** No check after the state write (deactivateNodes, unBond). */
  function NoChecks(n: nat): seq<bool>
  {
    seq(n, _ => true)
  }

  /** activateNodes' check after the state write: the length of the
      signature that goes with each key. */
  function SignatureChecks(pairs: seq<(BlsKey, Signature)>): seq<bool>
  {
    seq(|pairs|, j requires 0 <= j < |pairs| => |pairs[j].1| == BlsSignatureByteLength)
  }

  const WrongSignature: string := "wrong size BLS signature"

  /** The guard loop over a prefix of the keys: for each key its node id is
      collected; its node must be in `required` (else `msg`); it is set to
      `target`; then `checks` says whether the argument that goes with it
      passes (else WrongSignature). */
  function Mark(reg: Registry, st: map<nat, NodeState>, keys: seq<BlsKey>, checks: seq<bool>,
                required: NodeState, target: NodeState, msg: string): Marking
    requires |checks| == |keys|
  {
    if |keys| == 0 then Marking(st, [], None)
    else
      var m := |keys| - 1;
      MarkStep(Mark(reg, st, keys[..m], checks[..m], required, target, msg), reg.NodeId(keys[m]), checks[m],
               required, target, msg)
  }

  /** One iteration of the guard loop, for node id with argument check ok;
      nothing happens once the loop has failed. */
  function MarkStep(prev: Marking, id: nat, ok: bool, required: NodeState, target: NodeState, msg: string): Marking
  {
    if prev.fault.Some? then prev
    else if StateIn(prev.states, id) != required then Marking(prev.states, prev.ids + [id], Some(msg))
    else if !ok then Marking(prev.states[id := target], prev.ids + [id], Some(WrongSignature))
    else Marking(prev.states[id := target], prev.ids + [id], None)
  }

  lemma MarkSnoc(reg: Registry, st: map<nat, NodeState>, keys: seq<BlsKey>, checks: seq<bool>,
                 required: NodeState, target: NodeState, msg: string, i: nat)
    requires |checks| == |keys| && i < |keys|
    ensures Mark(reg, st, keys[..i + 1], checks[..i + 1], required, target, msg)
            == MarkStep(Mark(reg, st, keys[..i], checks[..i], required, target, msg), reg.NodeId(keys[i]), checks[i],
                        required, target, msg)
  {
    assert keys[..i + 1][..i] == keys[..i] && checks[..i + 1][..i] == checks[..i];
  }

  /** The callback loop: every listed node is set to s. */
  function SetAll(st: map<nat, NodeState>, ids: seq<nat>, s: NodeState): map<nat, NodeState>
  {
    if |ids| == 0 then st else SetAll(st, ids[..|ids| - 1], s)[ids[|ids| - 1] := s]
  }

  /** After SetAll, exactly the listed nodes are in s. */
  lemma {:induction false} SetAllEffect(st: map<nat, NodeState>, ids: seq<nat>, s: NodeState, i: nat)
    ensures StateIn(SetAll(st, ids, s), i) == if i in ids then s else StateIn(st, i)
  {
    if |ids| > 0 {
      var m := |ids| - 1;
      SetAllEffect(st, ids[..m], s, i);
      assert ids == ids[..m] + [ids[m]];
    }
  }

  /** The guard succeeds on these node ids: no id twice, each node in
      `required`, each argument check passing. */
  predicate Passes(st: map<nat, NodeState>, ids: seq<nat>, checks: seq<bool>, required: NodeState)
  {
    && Distinct(ids)
    && (forall j :: 0 <= j < |ids| ==> StateIn(st, ids[j]) == required)
    && (forall j :: 0 <= j < |checks| ==> checks[j])
  }

  lemma IdsOfSnoc(reg: Registry, keys: seq<BlsKey>)
    requires |keys| > 0
    ensures IdsOf(reg, keys) == IdsOf(reg, keys[..|keys| - 1]) + [reg.NodeId(keys[|keys| - 1])]
  {
  }

  lemma PassesInit(st: map<nat, NodeState>, ids: seq<nat>, checks: seq<bool>, required: NodeState)
    requires |ids| > 0 && |checks| == |ids| && Passes(st, ids, checks, required)
    ensures var m := |ids| - 1;
            Passes(st, ids[..m], checks[..m], required) && ids[m] !in ids[..m]
            && StateIn(st, ids[m]) == required && checks[m]
  {
    var m := |ids| - 1;
    forall p, q | 0 <= p < q < m ensures ids[..m][p] != ids[..m][q] {
      assert ids[p] != ids[q];
    }
    forall j | 0 <= j < m ensures ids[..m][j] != ids[m] {
      assert ids[j] != ids[m];
    }
  }

  /** A guard over distinct nodes all in `required`, with all checks passing,
      succeeds: it collects exactly the keys' node ids and sets exactly
      those nodes to `target`. */
  lemma {:induction false} MarkOk(reg: Registry, st: map<nat, NodeState>, keys: seq<BlsKey>, checks: seq<bool>,
                                  required: NodeState, target: NodeState, msg: string)
    requires |checks| == |keys| && Passes(st, IdsOf(reg, keys), checks, required)
    ensures var mk := Mark(reg, st, keys, checks, required, target, msg);
            mk.fault.None? && mk.ids == IdsOf(reg, keys) && mk.states == SetAll(st, mk.ids, target)
    decreases |keys|
  {
    if |keys| > 0 {
      var m := |keys| - 1;
      var ids := IdsOf(reg, keys[..m]);
      var id := reg.NodeId(keys[m]);
      assert Passes(st, ids, checks[..m], required) && id !in ids && StateIn(st, id) == required && checks[m]
             && IdsOf(reg, keys) == ids + [id] by {
        IdsOfSnoc(reg, keys);
        PassesInit(st, IdsOf(reg, keys), checks, required);
        assert IdsOf(reg, keys)[..m] == ids;
      }
      MarkOk(reg, st, keys[..m], checks[..m], required, target, msg);
      MarkStepOk(Mark(reg, st, keys[..m], checks[..m], required, target, msg), st, ids, id, checks[m], required, target, msg);
    }
  }

  /** After a successful prefix, a new id whose node is in `required` and
      whose check passes is collected and set to `target`. */
  lemma MarkStepOk(prev: Marking, st: map<nat, NodeState>, ids: seq<nat>, id: nat, ok: bool,
                   required: NodeState, target: NodeState, msg: string)
    requires prev == Marking(SetAll(st, ids, target), ids, None)
    requires id !in ids && StateIn(st, id) == required && ok
    ensures MarkStep(prev, id, ok, required, target, msg) == Marking(SetAll(st, ids + [id], target), ids + [id], None)
  {
    SetAllEffect(st, ids, target, id);
    assert (ids + [id])[..|ids|] == ids;
  }

  /** Once the guard has failed, the remaining keys are not looked at. */
  lemma {:induction false} MarkFaultSticks(reg: Registry, st: map<nat, NodeState>, keys: seq<BlsKey>, checks: seq<bool>,
                                           required: NodeState, target: NodeState, msg: string, n: nat)
    requires |checks| == |keys| && n <= |keys|
    requires Mark(reg, st, keys[..n], checks[..n], required, target, msg).fault.Some?
    ensures Mark(reg, st, keys, checks, required, target, msg) == Mark(reg, st, keys[..n], checks[..n], required, target, msg)
    decreases |keys| - n
  {
    if n < |keys| {
      assert keys[..n + 1][..n] == keys[..n];
      assert checks[..n + 1][..n] == checks[..n];
      MarkFaultSticks(reg, st, keys, checks, required, target, msg, n + 1);
    } else {
      assert keys[..n] == keys && checks[..n] == checks;
    }
  }

  /** The guard's only errors are `msg` and WrongSignature. */
  lemma {:induction false} MarkFaultKinds(reg: Registry, st: map<nat, NodeState>, keys: seq<BlsKey>, checks: seq<bool>,
                                          required: NodeState, target: NodeState, msg: string)
    requires |checks| == |keys|
    ensures var mk := Mark(reg, st, keys, checks, required, target, msg);
            mk.fault.Some? ==> mk.fault == Some(msg) || mk.fault == Some(WrongSignature)
    decreases |keys|
  {
    if |keys| > 0 {
      var m := |keys| - 1;
      MarkFaultKinds(reg, st, keys[..m], checks[..m], required, target, msg);
    }
  }

  lemma PassesSnoc(st: map<nat, NodeState>, ids: seq<nat>, checks: seq<bool>, required: NodeState, id: nat, c: bool)
    requires Passes(st, ids, checks, required) && id !in ids && StateIn(st, id) == required && c
    ensures Passes(st, ids + [id], checks + [c], required)
  {
    var ids' := ids + [id];
    forall p, q | 0 <= p < q < |ids'| ensures ids'[p] != ids'[q] {
      if q < |ids| {
        assert ids'[p] == ids[p] && ids'[q] == ids[q];
      } else {
        assert ids'[p] == ids[p];
      }
    }
  }

  /** Where the guard condition first breaks, the new id repeats an earlier
      one, its node is not in `required`, or its check fails. */
  lemma PassesBreaks(st: map<nat, NodeState>, ids: seq<nat>, checks: seq<bool>, required: NodeState)
    requires |ids| > 0 && |checks| == |ids|
    requires Passes(st, ids[..|ids| - 1], checks[..|ids| - 1], required) && !Passes(st, ids, checks, required)
    ensures var m := |ids| - 1;
            ids[m] in ids[..m] || StateIn(st, ids[m]) != required || !checks[m]
  {
    var m := |ids| - 1;
    assert ids == ids[..m] + [ids[m]];
    assert checks == checks[..m] + [checks[m]];
    if ids[m] !in ids[..m] && StateIn(st, ids[m]) == required && checks[m] {
      PassesSnoc(st, ids[..m], checks[..m], required, ids[m], checks[m]);
    }
  }

  lemma MarkFailsAtLast(reg: Registry, st: map<nat, NodeState>, keys: seq<BlsKey>, checks: seq<bool>,
                        required: NodeState, target: NodeState, msg: string)
    requires required != target && |checks| == |keys| && |keys| > 0
    requires Passes(st, IdsOf(reg, keys[..|keys| - 1]), checks[..|keys| - 1], required)
    requires !Passes(st, IdsOf(reg, keys), checks, required)
    ensures Mark(reg, st, keys, checks, required, target, msg).fault.Some?
  {
    var m := |keys| - 1;
    var ids := IdsOf(reg, keys[..m]);
    var id := reg.NodeId(keys[m]);
    assert id in ids || StateIn(st, id) != required || !checks[m] by {
      IdsOfSnoc(reg, keys);
      assert IdsOf(reg, keys)[..m] == ids;
      PassesBreaks(st, IdsOf(reg, keys), checks, required);
    }
    MarkOk(reg, st, keys[..m], checks[..m], required, target, msg);
    MarkStepFails(Mark(reg, st, keys[..m], checks[..m], required, target, msg), st, ids, id, checks[m], required, target, msg);
  }

  /** After a successful prefix, a repeated id, a node not in `required` or
      a failing check stops the guard. */
  lemma MarkStepFails(prev: Marking, st: map<nat, NodeState>, ids: seq<nat>, id: nat, ok: bool,
                      required: NodeState, target: NodeState, msg: string)
    requires required != target && prev == Marking(SetAll(st, ids, target), ids, None)
    requires id in ids || StateIn(st, id) != required || !ok
    ensures MarkStep(prev, id, ok, required, target, msg).fault.Some?
  {
    SetAllEffect(st, ids, target, id);
  }

  /** A guard fails when some id repeats, some node is not in `required` or
      some check fails; the error is `msg` or WrongSignature. */
  lemma {:induction false} MarkFails(reg: Registry, st: map<nat, NodeState>, keys: seq<BlsKey>, checks: seq<bool>,
                                     required: NodeState, target: NodeState, msg: string)
    requires required != target && |checks| == |keys| && !Passes(st, IdsOf(reg, keys), checks, required)
    ensures var mk := Mark(reg, st, keys, checks, required, target, msg);
            mk.fault == Some(msg) || mk.fault == Some(WrongSignature)
    decreases |keys|
  {
    MarkFaultKinds(reg, st, keys, checks, required, target, msg);
    assert |keys| > 0;
    var m := |keys| - 1;
    if !Passes(st, IdsOf(reg, keys[..m]), checks[..m], required) {
      MarkFails(reg, st, keys[..m], checks[..m], required, target, msg);
      MarkFaultSticks(reg, st, keys, checks, required, target, msg, m);
    } else {
      MarkFailsAtLast(reg, st, keys, checks, required, target, msg);
    }
  }

  /** With no argument checks the error is always `msg`. */
  lemma {:induction false} MarkFaultIsMsg(reg: Registry, st: map<nat, NodeState>, keys: seq<BlsKey>,
                                          required: NodeState, target: NodeState, msg: string)
    ensures var mk := Mark(reg, st, keys, NoChecks(|keys|), required, target, msg);
            mk.fault.Some? ==> mk.fault == Some(msg)
    decreases |keys|
  {
    if |keys| > 0 {
      var m := |keys| - 1;
      assert NoChecks(|keys|)[..m] == NoChecks(m);
      MarkFaultIsMsg(reg, st, keys[..m], required, target, msg);
    }
  }

  /** The guard loop over the nodes' storage. */
  method MarkNodes(nodes: NodeRegistry, keys: seq<BlsKey>, checks: seq<bool>,
                   required: NodeState, target: NodeState, msg: string) returns (ids: seq<nat>, fault: Option<string>)
    requires |checks| == |keys|
    modifies nodes`stateOf
    ensures Marking(nodes.stateOf, ids, fault) == Mark(old(nodes.Model()), old(nodes.stateOf), keys, checks, required, target, msg)
  {
    ghost var reg := nodes.Model();
    ids := [];
    fault := None;
    var i := 0;
    while i < |keys| && fault.None?
      invariant 0 <= i <= |keys|
      invariant Marking(nodes.stateOf, ids, fault) == Mark(reg, reg.stateOf, keys[..i], checks[..i], required, target, msg)
    {
      MarkSnoc(reg, reg.stateOf, keys, checks, required, target, msg, i);
      var id := if keys[i] in nodes.idOf then nodes.idOf[keys[i]] else 0;
      assert id == reg.NodeId(keys[i]);
      ids := ids + [id];
      if StateIn(nodes.stateOf, id) != required {
        fault := Some(msg);
      } else {
        nodes.SetNodeState(id, target);
        if !checks[i] {
          fault := Some(WrongSignature);
        }
      }
      i := i + 1;
    }
    if fault.Some? {
      MarkFaultSticks(reg, reg.stateOf, keys, checks, required, target, msg, i);
    } else {
      assert keys[..i] == keys && checks[..i] == checks;
    }
  }

  /** The callback loop over the nodes' storage. */
  method SetNodeStates(nodes: NodeRegistry, ids: seq<nat>, s: NodeState)
    modifies nodes`stateOf
    ensures nodes.stateOf == SetAll(old(nodes.stateOf), ids, s)
  {
    ghost var st := nodes.stateOf;
    var i := 0;
    while i < |ids|
      invariant 0 <= i <= |ids|
      invariant nodes.stateOf == SetAll(st, ids[..i], s)
    {
      assert ids[..i + 1][..i] == ids[..i];
      nodes.SetNodeState(ids[i], s);
      i := i + 1;
    }
    assert ids[..i] == ids;
  }
}

/** The validator node registry: node ids handed out to BLS keys (both ways),
    each node's lifecycle state and its BLS signature. */
module NodeConfig {
  import opened Common

  /** Lifecycle state of a validator node. Storage that was never written
      decodes as the first variant, Inactive. */
  datatype NodeState =
    | Inactive
    | PendingActivation
    | Active
    | PendingDeactivation
    | UnBondPeriod
    | PendingUnBond
    | Removed

  /** get_node_state: the stored state, Inactive where nothing was stored. */
  function StateIn(m: map<nat, NodeState>, id: nat): NodeState
  {
    if id in m then m[id] else Inactive
  }

  /** The registry storage as a value: num_nodes and the four storage maps. */
  datatype Registry = Registry(
    numNodes: nat,
    idOf: map<BlsKey, nat>,
    keyOf: map<nat, BlsKey>,
    stateOf: map<nat, NodeState>,
    signatureOf: map<nat, Signature>)
  {
    /** get_node_id: 0 for a key that was never registered. */
    function NodeId(k: BlsKey): nat
    {
      if k in idOf then idOf[k] else 0
    }

    function KeyOf(id: nat): BlsKey
    {
      if id in keyOf then keyOf[id] else []
    }

    function State(id: nat): NodeState
    {
      StateIn(stateOf, id)
    }

    function SignatureOf(id: nat): Signature
    {
      if id in signatureOf then signatureOf[id] else []
    }

    /** Ids are dense in 1..num_nodes and the key/id maps are inverse to
        each other. */
    ghost predicate Valid()
    {
      && (forall k :: k in idOf ==> 1 <= idOf[k] <= numNodes && idOf[k] in keyOf && keyOf[idOf[k]] == k)
      && (forall i :: i in keyOf ==> 1 <= i <= numNodes && keyOf[i] in idOf && idOf[keyOf[i]] == i)
      && (forall i :: 1 <= i <= numNodes ==> i in keyOf)
    }
  }

  /** A key may be added when it is unknown or its node was removed. */
  predicate Admissible(r: Registry, k: BlsKey)
  {
    r.NodeId(k) == 0 || r.State(r.NodeId(k)) == Removed
  }

  /** Progress of the add_nodes loop: the storage written so far, with the
      local node counter in numNodes, and the error that stopped it. */
  datatype AddRun = AddRun(reg: Registry, fault: Option<string>)

  /** One iteration of add_nodes for the pair (k, sig). */
  function AddOne(r: Registry, k: BlsKey, sig: Signature): AddRun
  {
    var id := r.NodeId(k);
    if id == 0 then
      var n := r.numNodes + 1;
      AddRun(Registry(n, r.idOf[k := n], r.keyOf[n := k], r.stateOf[n := Inactive], r.signatureOf[n := sig]), None)
    else if r.State(id) == Removed then
      AddRun(r.(stateOf := r.stateOf[id := Inactive], signatureOf := r.signatureOf[id := sig]), None)
    else
      AddRun(r, Some("node already registered"))
  }

  /** The add_nodes loop over a prefix of its arguments; it stops at the
      first error. */
  function AddLoop(r: Registry, pairs: seq<(BlsKey, Signature)>): AddRun
  {
    if |pairs| == 0 then AddRun(r, None)
    else
      var prev := AddLoop(r, pairs[..|pairs| - 1]);
      if prev.fault.Some? then prev else AddOne(prev.reg, pairs[|pairs| - 1].0, pairs[|pairs| - 1].1)
  }

  lemma AddLoopSnoc(r: Registry, pairs: seq<(BlsKey, Signature)>, i: nat)
    requires i < |pairs|
    ensures AddLoop(r, pairs[..i + 1])
            == (var prev := AddLoop(r, pairs[..i]);
                if prev.fault.Some? then prev else AddOne(prev.reg, pairs[i].0, pairs[i].1))
  {
    assert pairs[..i + 1][..i] == pairs[..i];
  }

  function Keys(pairs: seq<(BlsKey, Signature)>): seq<BlsKey>
  {
    seq(|pairs|, j requires 0 <= j < |pairs| => pairs[j].0)
  }

  /** How many of the keys are unknown to the registry (and so get a new id). */
  function CountFresh(r: Registry, keys: seq<BlsKey>): nat
  {
    if |keys| == 0 then 0
    else CountFresh(r, keys[..|keys| - 1]) + (if r.NodeId(keys[|keys| - 1]) == 0 then 1 else 0)
  }

  /** The arguments of a successful add_nodes: distinct keys, each unknown
      or removed. */
  predicate AllAdmissible(r: Registry, pairs: seq<(BlsKey, Signature)>)
  {
    Distinct(Keys(pairs)) && forall j :: 0 <= j < |pairs| ==> Admissible(r, pairs[j].0)
  }

  /** Every added key is registered, Inactive and carries its signature. */
  ghost predicate AllRegistered(out: Registry, pairs: seq<(BlsKey, Signature)>)
  {
    forall j :: 0 <= j < |pairs| ==>
      && out.NodeId(pairs[j].0) != 0
      && out.State(out.NodeId(pairs[j].0)) == Inactive
      && out.SignatureOf(out.NodeId(pairs[j].0)) == pairs[j].1
  }

  /** Registered keys keep their ids, and keys not in `keys` are untouched. */
  ghost predicate IdsKept(r: Registry, out: Registry, keys: seq<BlsKey>)
  {
    && (forall k :: r.NodeId(k) != 0 ==> out.NodeId(k) == r.NodeId(k))
    && (forall k :: k !in keys ==> out.NodeId(k) == r.NodeId(k))
  }

  /** Nodes 1..num_nodes whose key is not in `keys` are untouched. */
  ghost predicate NodesKept(r: Registry, out: Registry, keys: seq<BlsKey>)
  {
    forall i :: 1 <= i <= r.numNodes && r.KeyOf(i) !in keys ==>
      out.KeyOf(i) == r.KeyOf(i) && out.State(i) == r.State(i) && out.SignatureOf(i) == r.SignatureOf(i)
  }

  lemma KeysSnoc(pairs: seq<(BlsKey, Signature)>)
    requires |pairs| > 0
    ensures Keys(pairs) == Keys(pairs[..|pairs| - 1]) + [pairs[|pairs| - 1].0]
  {
  }

  /** Adding an admissible key to a valid registry keeps it valid. */
  lemma AddOneValid(r: Registry, k: BlsKey, sig: Signature)
    requires r.Valid() && Admissible(r, k)
    ensures AddOne(r, k, sig).reg.Valid()
  {
    var out := AddOne(r, k, sig).reg;
    if r.NodeId(k) == 0 {
      var n := r.numNodes + 1;
      assert k !in r.idOf;
      assert n !in r.keyOf;
      forall i | i in out.keyOf
        ensures 1 <= i <= out.numNodes && out.keyOf[i] in out.idOf && out.idOf[out.keyOf[i]] == i
      {
        if i != n {
          assert r.keyOf[i] != k;
        }
      }
    }
  }

  /** Adding an admissible key: an unknown key gets the next id, a removed
      one keeps its id; either way the node is Inactive with the new
      signature and nothing else changes. */
  lemma AddOneOk(r: Registry, k: BlsKey, sig: Signature)
    requires r.Valid() && Admissible(r, k)
    ensures var out := AddOne(r, k, sig).reg;
            && AddOne(r, k, sig).fault.None?
            && out.Valid()
            && out.numNodes == r.numNodes + (if r.NodeId(k) == 0 then 1 else 0)
            && (r.NodeId(k) == 0 ==> out.NodeId(k) == r.numNodes + 1)
            && (r.NodeId(k) != 0 ==> out.NodeId(k) == r.NodeId(k))
            && out.NodeId(k) != 0
            && out.KeyOf(out.NodeId(k)) == k
            && out.State(out.NodeId(k)) == Inactive
            && out.SignatureOf(out.NodeId(k)) == sig
            && (forall k' :: k' != k ==> out.NodeId(k') == r.NodeId(k'))
            && (forall i :: i != out.NodeId(k) ==> out.KeyOf(i) == r.KeyOf(i) && out.State(i) == r.State(i) && out.SignatureOf(i) == r.SignatureOf(i))
  {
    AddOneValid(r, k, sig);
  }

  /** An inadmissible key makes add_nodes fail and changes nothing. */
  lemma AddOneFails(r: Registry, k: BlsKey, sig: Signature)
    requires !Admissible(r, k)
    ensures AddOne(r, k, sig) == AddRun(r, Some("node already registered"))
  {
  }

  /** Once the loop has failed it stays failed with the same storage. */
  lemma {:induction false} AddLoopFaultSticks(r: Registry, pairs: seq<(BlsKey, Signature)>, m: nat)
    requires m <= |pairs| && AddLoop(r, pairs[..m]).fault.Some?
    ensures AddLoop(r, pairs) == AddLoop(r, pairs[..m])
    decreases |pairs| - m
  {
    if m < |pairs| {
      assert pairs[..m + 1][..m] == pairs[..m];
      AddLoopFaultSticks(r, pairs, m + 1);
    } else {
      assert pairs[..m] == pairs;
    }
  }

  lemma AllAdmissibleInit(r: Registry, pairs: seq<(BlsKey, Signature)>)
    requires |pairs| > 0 && AllAdmissible(r, pairs)
    ensures var m := |pairs| - 1;
            AllAdmissible(r, pairs[..m]) && pairs[m].0 !in Keys(pairs[..m]) && Admissible(r, pairs[m].0)
  {
    var m := |pairs| - 1;
    var init := pairs[..m];
    KeysSnoc(pairs);
    forall p, q | 0 <= p < q < |Keys(init)| ensures Keys(init)[p] != Keys(init)[q] {
      assert Keys(init)[p] == Keys(pairs)[p] && Keys(init)[q] == Keys(pairs)[q];
    }
    forall j | 0 <= j < |init| ensures Admissible(r, init[j].0) {
      assert init[j] == pairs[j];
    }
    forall j | 0 <= j < |Keys(init)| ensures Keys(init)[j] != pairs[m].0 {
      assert Keys(pairs)[j] == Keys(init)[j] && Keys(pairs)[m] == pairs[m].0;
    }
  }

  /** A key the loop has not reached yet reads in the partly updated
      registry as it did at the start. */
  lemma AdmissibleCarries(r: Registry, prev: Registry, keys: seq<BlsKey>, k: BlsKey)
    requires r.Valid() && IdsKept(r, prev, keys) && NodesKept(r, prev, keys) && k !in keys
    ensures prev.NodeId(k) == r.NodeId(k)
    ensures r.NodeId(k) != 0 ==> prev.State(prev.NodeId(k)) == r.State(r.NodeId(k))
  {
    if r.NodeId(k) != 0 {
      assert r.KeyOf(r.NodeId(k)) == k;
    }
  }

  lemma StepRegistered(prev: Registry, init: seq<(BlsKey, Signature)>, k: BlsKey, sig: Signature)
    requires prev.Valid() && Admissible(prev, k) && AllRegistered(prev, init) && k !in Keys(init)
    ensures AllRegistered(AddOne(prev, k, sig).reg, init + [(k, sig)])
  {
    AddOneOk(prev, k, sig);
    var out := AddOne(prev, k, sig).reg;
    var pairs := init + [(k, sig)];
    forall j | 0 <= j < |pairs|
      ensures && out.NodeId(pairs[j].0) != 0
              && out.State(out.NodeId(pairs[j].0)) == Inactive
              && out.SignatureOf(out.NodeId(pairs[j].0)) == pairs[j].1
    {
      if j < |init| {
        var kj := init[j].0;
        assert pairs[j] == init[j];
        assert kj != k by {
          assert Keys(init)[j] == kj;
        }
        assert prev.KeyOf(prev.NodeId(kj)) == kj;
      }
    }
  }

  lemma StepKept(r: Registry, prev: Registry, init: seq<(BlsKey, Signature)>, k: BlsKey, sig: Signature)
    requires prev.Valid() && Admissible(prev, k) && k !in Keys(init) && prev.numNodes >= r.numNodes
    requires IdsKept(r, prev, Keys(init)) && NodesKept(r, prev, Keys(init))
    ensures IdsKept(r, AddOne(prev, k, sig).reg, Keys(init) + [k])
    ensures NodesKept(r, AddOne(prev, k, sig).reg, Keys(init) + [k])
  {
    AddOneOk(prev, k, sig);
    var out := AddOne(prev, k, sig).reg;
    var keys := Keys(init) + [k];
    forall i | 1 <= i <= r.numNodes && r.KeyOf(i) !in keys
      ensures out.KeyOf(i) == r.KeyOf(i) && out.State(i) == r.State(i) && out.SignatureOf(i) == r.SignatureOf(i)
    {
      assert r.KeyOf(i) !in Keys(init);
      assert i != out.NodeId(k);
    }
  }

  /** add_nodes over distinct admissible keys succeeds: every key ends up
      registered, Inactive, with its signature; num_nodes grows by exactly the
      number of unknown keys; the registry stays valid; registered keys keep
      their ids; nodes of other keys are untouched. */
  lemma {:induction false} AddLoopOk(r: Registry, pairs: seq<(BlsKey, Signature)>)
    requires r.Valid() && AllAdmissible(r, pairs)
    ensures AddLoopOutcome(r, pairs, AddLoop(r, pairs))
    decreases |pairs|
  {
    if |pairs| > 0 {
      var m := |pairs| - 1;
      var init := pairs[..m];
      AllAdmissibleInit(r, pairs);
      AddLoopOk(r, init);
      KeysSnoc(pairs);
      assert pairs == init + [pairs[m]];
      AddLoopStep(r, init, AddLoop(r, init).reg, pairs[m].0, pairs[m].1);
    }
  }

  /** The state a successful add_nodes over `pairs` leaves, as AddLoopOk
      describes it. */
  ghost predicate AddLoopOutcome(r: Registry, pairs: seq<(BlsKey, Signature)>, run: AddRun)
  {
    && run.fault.None?
    && run.reg.Valid()
    && run.reg.numNodes == r.numNodes + CountFresh(r, Keys(pairs))
    && AllRegistered(run.reg, pairs)
    && IdsKept(r, run.reg, Keys(pairs))
    && NodesKept(r, run.reg, Keys(pairs))
  }

  /** One more admissible pair keeps the outcome of a successful loop. */
  lemma AddLoopStep(r: Registry, init: seq<(BlsKey, Signature)>, prev: Registry, k: BlsKey, sig: Signature)
    requires r.Valid() && AddLoopOutcome(r, init, AddRun(prev, None))
    requires k !in Keys(init) && Admissible(r, k)
    ensures AddLoopOutcome(r, init + [(k, sig)], AddOne(prev, k, sig))
  {
    var pairs := init + [(k, sig)];
    AdmissibleCarries(r, prev, Keys(init), k);
    AddOneValid(prev, k, sig);
    StepRegistered(prev, init, k, sig);
    StepKept(r, prev, init, k, sig);
    KeysSnoc(pairs);
    assert pairs[..|init|] == init;
  }

  /** The first argument at which the admissibility of the whole list
      breaks is a repeat of an earlier key or an inadmissible key. */
  lemma AdmissibleBreaks(r: Registry, pairs: seq<(BlsKey, Signature)>)
    requires |pairs| > 0 && AllAdmissible(r, pairs[..|pairs| - 1]) && !AllAdmissible(r, pairs)
    ensures pairs[|pairs| - 1].0 in Keys(pairs[..|pairs| - 1]) || !Admissible(r, pairs[|pairs| - 1].0)
  {
    var m := |pairs| - 1;
    var init := pairs[..m];
    var k := pairs[m].0;
    KeysSnoc(pairs);
  }

  lemma AddLoopFailsAtLast(r: Registry, pairs: seq<(BlsKey, Signature)>)
    requires r.Valid() && |pairs| > 0 && AllAdmissible(r, pairs[..|pairs| - 1]) && !AllAdmissible(r, pairs)
    ensures AddLoop(r, pairs).fault == Some("node already registered")
  {
    var m := |pairs| - 1;
    var init := pairs[..m];
    var k := pairs[m].0;
    AdmissibleBreaks(r, pairs);
    AddLoopOk(r, init);
    var prev := AddLoop(r, init).reg;
    if k in Keys(init) {
      var p :| 0 <= p < |init| && Keys(init)[p] == k;
      assert init[p].0 == k;
    } else {
      AdmissibleCarries(r, prev, Keys(init), k);
    }
    AddOneFails(prev, k, pairs[m].1);
  }

  /** add_nodes fails exactly when some key is repeated among its arguments
      or is registered and not Removed. */
  lemma {:induction false} AddLoopFails(r: Registry, pairs: seq<(BlsKey, Signature)>)
    requires r.Valid() && !AllAdmissible(r, pairs)
    ensures AddLoop(r, pairs).fault == Some("node already registered")
    decreases |pairs|
  {
    assert |pairs| > 0;
    var m := |pairs| - 1;
    var init := pairs[..m];
    if !AllAdmissible(r, init) {
      AddLoopFails(r, init);
      AddLoopFaultSticks(r, pairs, m);
    } else {
      AddLoopFailsAtLast(r, pairs);
    }
  }

  /** One iteration of remove_nodes for key k. */
  function RemoveOne(r: Registry, k: BlsKey): AddRun
  {
    var id := r.NodeId(k);
    if id == 0 then AddRun(r, Some("node not registered"))
    else if r.State(id) != Inactive then AddRun(r, Some("only inactive nodes can be removed"))
    else AddRun(r.(stateOf := r.stateOf[id := Removed]), None)
  }

  /** The remove_nodes loop over a prefix of its arguments. */
  function RemoveLoop(r: Registry, keys: seq<BlsKey>): AddRun
  {
    if |keys| == 0 then AddRun(r, None)
    else
      var prev := RemoveLoop(r, keys[..|keys| - 1]);
      if prev.fault.Some? then prev else RemoveOne(prev.reg, keys[|keys| - 1])
  }

  predicate Removable(r: Registry, k: BlsKey)
  {
    r.NodeId(k) != 0 && r.State(r.NodeId(k)) == Inactive
  }

  /** The arguments of a successful remove_nodes: distinct keys of
      registered Inactive nodes. */
  predicate AllRemovable(r: Registry, keys: seq<BlsKey>)
  {
    Distinct(keys) && forall j :: 0 <= j < |keys| ==> Removable(r, keys[j])
  }

  /** The node ids of the keys, in argument order. */
  function IdsOf(r: Registry, keys: seq<BlsKey>): seq<nat>
  {
    seq(|keys|, j requires 0 <= j < |keys| => r.NodeId(keys[j]))
  }

  lemma AllRemovableInit(r: Registry, keys: seq<BlsKey>)
    requires |keys| > 0 && AllRemovable(r, keys)
    ensures var m := |keys| - 1;
            AllRemovable(r, keys[..m]) && keys[m] !in keys[..m] && Removable(r, keys[m])
  {
    var m := |keys| - 1;
    forall p, q | 0 <= p < q < m ensures keys[..m][p] != keys[..m][q] {
      assert keys[p] != keys[q];
    }
    forall j | 0 <= j < m ensures keys[..m][j] != keys[m] {
      assert keys[j] != keys[m];
    }
  }

  /** remove_nodes over distinct registered Inactive keys succeeds, sets
      exactly their nodes to Removed and leaves every other node, and the
      key/id maps, as they were. */
  lemma {:induction false} RemoveLoopOk(r: Registry, keys: seq<BlsKey>)
    requires r.Valid() && AllRemovable(r, keys)
    ensures var run := RemoveLoop(r, keys);
            && run.fault.None?
            && run.reg == r.(stateOf := run.reg.stateOf)
            && (forall i :: i in IdsOf(r, keys) ==> run.reg.State(i) == Removed)
            && (forall i :: i !in IdsOf(r, keys) ==> run.reg.State(i) == r.State(i))
    decreases |keys|
  {
    if |keys| > 0 {
      var m := |keys| - 1;
      var init := keys[..m];
      var k := keys[m];
      AllRemovableInit(r, keys);
      RemoveLoopOk(r, init);
      var prev := RemoveLoop(r, init).reg;
      var id := r.NodeId(k);
      assert IdsOf(r, keys) == IdsOf(r, init) + [id];
      assert id !in IdsOf(r, init) by {
        forall j | 0 <= j < m ensures IdsOf(r, init)[j] != id {
          assert init[j] != k;
          assert r.KeyOf(r.NodeId(init[j])) == init[j];
          assert r.KeyOf(id) == k;
        }
      }
    }
  }

  lemma RemoveBreaks(r: Registry, keys: seq<BlsKey>)
    requires |keys| > 0 && AllRemovable(r, keys[..|keys| - 1]) && !AllRemovable(r, keys)
    ensures keys[|keys| - 1] in keys[..|keys| - 1] || !Removable(r, keys[|keys| - 1])
  {
    var m := |keys| - 1;
    assert keys == keys[..m] + [keys[m]];
  }

  lemma RemoveFailsAtLast(r: Registry, keys: seq<BlsKey>)
    requires r.Valid() && |keys| > 0 && AllRemovable(r, keys[..|keys| - 1]) && !AllRemovable(r, keys)
    ensures RemoveLoop(r, keys).fault.Some?
  {
    var m := |keys| - 1;
    var init := keys[..m];
    var k := keys[m];
    RemoveBreaks(r, keys);
    RemoveLoopOk(r, init);
    var prev := RemoveLoop(r, init).reg;
    if k in init {
      var p :| 0 <= p < m && init[p] == k;
      assert IdsOf(r, init)[p] == r.NodeId(k);
    } else {
      var id := r.NodeId(k);
      if id != 0 {
        assert id !in IdsOf(r, init) by {
          forall j | 0 <= j < m ensures IdsOf(r, init)[j] != id {
            assert r.KeyOf(r.NodeId(init[j])) == init[j];
            assert r.KeyOf(id) == k;
          }
        }
      }
    }
  }

  /** The remove loop's only errors are the two messages of its checks. */
  lemma {:induction false} RemoveFaultKinds(r: Registry, keys: seq<BlsKey>)
    ensures var f := RemoveLoop(r, keys).fault;
            f.Some? ==> f.value == "node not registered" || f.value == "only inactive nodes can be removed"
    decreases |keys|
  {
    if |keys| > 0 {
      RemoveFaultKinds(r, keys[..|keys| - 1]);
    }
  }

  /** remove_nodes fails exactly when some key is repeated, unregistered, or
      names a node that is not Inactive. */
  lemma {:induction false} RemoveLoopFails(r: Registry, keys: seq<BlsKey>)
    requires r.Valid() && !AllRemovable(r, keys)
    ensures RemoveLoop(r, keys).fault.Some?
    ensures RemoveLoop(r, keys).fault.value in {"node not registered", "only inactive nodes can be removed"}
    decreases |keys|
  {
    RemoveFaultKinds(r, keys);
    assert |keys| > 0;
    var m := |keys| - 1;
    var init := keys[..m];
    if !AllRemovable(r, init) {
      RemoveLoopFails(r, init);
      RemoveFaultSticks(r, keys, m);
    } else {
      RemoveFailsAtLast(r, keys);
    }
  }

  /** swap_remove: the element at pos is replaced by the last one, and the
      vector shrinks by one. */
  function SwapRemove(s: seq<nat>, pos: nat): (r: seq<nat>)
    requires pos < |s|
    ensures |r| == |s| - 1
    ensures multiset(r) + multiset{s[pos]} == multiset(s)
  {
    var last := |s| - 1;
    if pos == last then
      assert s == s[..last] + [s[last]];
      s[..last]
    else
      assert s == s[..pos] + [s[pos]] + s[pos + 1..last] + [s[last]];
      s[..pos] + [s[last]] + s[pos + 1..last]
  }

  /** Iterator::position: the first index holding x, if any. */
  function Position(s: seq<nat>, x: nat): (r: Option<nat>)
    ensures r.None? <==> x !in s
    ensures r.Some? ==> r.value < |s| && s[r.value] == x && x !in s[..r.value]
  {
    if |s| == 0 then None
    else if s[0] == x then Some(0)
    else
      var p := Position(s[1..], x);
      if p.None? then None
      else
        assert s[..p.value + 1] == [s[0]] + s[1..][..p.value];
        Some(p.value + 1)
  }

  /** The node registry storage of the contract. */
  class NodeRegistry {
    var numNodes: nat
    var idOf: map<BlsKey, nat>
    var keyOf: map<nat, BlsKey>
    var stateOf: map<nat, NodeState>
    var signatureOf: map<nat, Signature>

    function Model(): Registry
      reads this
    {
      Registry(numNodes, idOf, keyOf, stateOf, signatureOf)
    }

    constructor ()
      ensures Model() == Registry(0, map[], map[], map[], map[])
      ensures Model().Valid()
    {
      numNodes := 0;
      idOf := map[];
      keyOf := map[];
      stateOf := map[];
      signatureOf := map[];
    }

    /** _set_node_state. */
    method SetNodeState(id: nat, s: NodeState)
      modifies this`stateOf
      ensures stateOf == old(stateOf)[id := s]
    {
      stateOf := stateOf[id := s];
    }

    /** getNodeSignature: None for an unregistered key. */
    function GetNodeSignature(k: BlsKey): (r: Option<Signature>)
      reads this
      ensures r.None? <==> Model().NodeId(k) == 0
      ensures r.Some? ==> r.value == Model().SignatureOf(Model().NodeId(k))
    {
      var id := Model().NodeId(k);
      if id == 0 then None else Some(Model().SignatureOf(id))
    }

    /** getNodeState: Removed for an unregistered key. */
    function GetNodeStateOfKey(k: BlsKey): (r: NodeState)
      reads this
      ensures Model().NodeId(k) == 0 ==> r == Removed
      ensures Model().NodeId(k) != 0 ==> r == Model().State(Model().NodeId(k))
    {
      var id := Model().NodeId(k);
      if id == 0 then Removed else Model().State(id)
    }

    /** addNodes: owner only; each pair registers or re-registers a node.
        The map writes stay even when a later pair fails, but the node
        counter is stored only when the whole loop succeeds. */
    method AddNodes(caller: Address, owner: Address, pairs: seq<(BlsKey, Signature)>) returns (r: Result<()>)
      modifies this
      ensures caller != owner ==> r == Err("only owner can add nodes") && Model() == old(Model())
      ensures caller == owner ==>
                var run := AddLoop(old(Model()), pairs);
                && (run.fault.None? ==> r == Ok(()) && Model() == run.reg)
                && (run.fault.Some? ==> r == Err(run.fault.value) && Model() == run.reg.(numNodes := old(numNodes)))
    {
      if caller != owner {
        return Err("only owner can add nodes");
      }
      ghost var start := Model();
      var count := numNodes;
      var i := 0;
      while i < |pairs|
        invariant 0 <= i <= |pairs|
        invariant AddLoop(start, pairs[..i]) == AddRun(Model().(numNodes := count), None)
        invariant numNodes == start.numNodes
      {
        AddLoopSnoc(start, pairs, i);
        var (k, sig) := pairs[i];
        var id := if k in idOf then idOf[k] else 0;
        if id == 0 {
          count := count + 1;
          id := count;
          idOf := idOf[k := id];
          keyOf := keyOf[id := k];
          stateOf := stateOf[id := Inactive];
          signatureOf := signatureOf[id := sig];
        } else if StateIn(stateOf, id) == Removed {
          stateOf := stateOf[id := Inactive];
          signatureOf := signatureOf[id := sig];
        } else {
          AddLoopFaultSticks(start, pairs, i + 1);
          return Err("node already registered");
        }
        i := i + 1;
      }
      assert pairs[..i] == pairs;
      numNodes := count;
      r := Ok(());
    }

    /** removeNodes: owner only; every key must be registered and Inactive,
        and its node becomes Removed. */
    method RemoveNodes(caller: Address, owner: Address, keys: seq<BlsKey>) returns (r: Result<()>)
      modifies this`stateOf
      ensures caller != owner ==> r == Err("only owner can remove nodes") && Model() == old(Model())
      ensures caller == owner ==>
                var run := RemoveLoop(old(Model()), keys);
                && Model() == run.reg
                && r == (if run.fault.Some? then Err(run.fault.value) else Ok(()))
    {
      if caller != owner {
        return Err("only owner can remove nodes");
      }
      ghost var start := Model();
      var i := 0;
      while i < |keys|
        invariant 0 <= i <= |keys|
        invariant RemoveLoop(start, keys[..i]) == AddRun(Model(), None)
      {
        assert keys[..i + 1][..i] == keys[..i];
        var id := if keys[i] in idOf then idOf[keys[i]] else 0;
        if id == 0 {
          RemoveFaultSticks(start, keys, i + 1);
          return Err("node not registered");
        }
        if StateIn(stateOf, id) != Inactive {
          RemoveFaultSticks(start, keys, i + 1);
          return Err("only inactive nodes can be removed");
        }
        stateOf := stateOf[id := Removed];
        i := i + 1;
      }
      assert keys[..i] == keys;
      r := Ok(());
    }

    /** getAllNodeStates: one (key, state) entry per node id 1..num_nodes,
        in ascending id order. */
    method GetAllNodeStates() returns (r: seq<(BlsKey, NodeState)>)
      ensures |r| == numNodes
      ensures forall j :: 0 <= j < |r| ==> r[j] == (Model().KeyOf(j + 1), Model().State(j + 1))
    {
      r := [];
      var i := 1;
      while i < numNodes + 1
        invariant 1 <= i <= numNodes + 1
        invariant |r| == i - 1
        invariant forall j :: 0 <= j < |r| ==> r[j] == (Model().KeyOf(j + 1), Model().State(j + 1))
      {
        r := r + [(Model().KeyOf(i), Model().State(i))];
        i := i + 1;
      }
    }

    /** split_node_ids_by_err: every key reported with a nonzero status moves
        its node id (if present) from the ok list to the failed list. */
    method SplitNodeIdsByErr(nodeIds: seq<nat>, statuses: seq<(BlsKey, nat)>) returns (ok: seq<nat>, failed: seq<nat>)
      ensures multiset(ok) + multiset(failed) == multiset(nodeIds)
      ensures forall x :: x in failed ==> x in nodeIds && Reported(Model(), statuses, x)
      ensures Distinct(nodeIds) ==> forall x :: x in ok <==> x in nodeIds && !Reported(Model(), statuses, x)
    {
      ok := nodeIds;
      failed := [];
      var i := 0;
      while i < |statuses|
        invariant 0 <= i <= |statuses|
        invariant SplitInv(Model(), nodeIds, statuses[..i], ok, failed)
      {
        var (k, status) := statuses[i];
        ghost var (ok0, failed0) := (ok, failed);
        if status != 0 {
          var id := Model().NodeId(k);
          var pos := Position(ok, id);
          if pos.Some? {
            ok := SwapRemove(ok, pos.value);
            failed := failed + [id];
          }
        }
        SplitStep(Model(), nodeIds, statuses, i, ok0, failed0, ok, failed);
        i := i + 1;
      }
      assert statuses[..i] == statuses;
      FailedWereListed(ok, failed, nodeIds);
    }
  }

  /** What split_node_ids_by_err keeps true after processing a prefix of
      the statuses. */
  ghost predicate SplitInv(reg: Registry, nodeIds: seq<nat>, done: seq<(BlsKey, nat)>, ok: seq<nat>, failed: seq<nat>)
  {
    && multiset(ok) + multiset(failed) == multiset(nodeIds)
    && (forall x :: x in failed ==> Reported(reg, done, x))
    && (Distinct(nodeIds) ==> forall x :: x in ok <==> x in nodeIds && !Reported(reg, done, x))
  }

  lemma SplitStep(reg: Registry, nodeIds: seq<nat>, statuses: seq<(BlsKey, nat)>, i: nat,
                  ok: seq<nat>, failed: seq<nat>, ok': seq<nat>, failed': seq<nat>)
    requires i < |statuses| && SplitInv(reg, nodeIds, statuses[..i], ok, failed)
    requires var id := reg.NodeId(statuses[i].0);
             if statuses[i].1 != 0 && id in ok
             then multiset(ok') + multiset{id} == multiset(ok) && failed' == failed + [id]
             else ok' == ok && failed' == failed
    ensures SplitInv(reg, nodeIds, statuses[..i + 1], ok', failed')
  {
    ReportedSnoc(reg, statuses, i);
    var id := reg.NodeId(statuses[i].0);
    if Distinct(nodeIds) && statuses[i].1 != 0 {
      OkStep(nodeIds, ok, ok', id, id in ok);
    }
  }

  lemma FailedWereListed(ok: seq<nat>, failed: seq<nat>, nodeIds: seq<nat>)
    requires multiset(ok) + multiset(failed) == multiset(nodeIds)
    ensures forall x :: x in failed ==> x in nodeIds
  {
    forall x | x in failed ensures x in nodeIds {
      assert multiset(failed)[x] > 0;
      assert multiset(nodeIds)[x] > 0;
    }
  }

  /** Some key with a nonzero status names node x. */
  ghost predicate Reported(reg: Registry, statuses: seq<(BlsKey, nat)>, x: nat)
  {
    exists j :: 0 <= j < |statuses| && statuses[j].1 != 0 && reg.NodeId(statuses[j].0) == x
  }

  lemma ReportedSnoc(reg: Registry, statuses: seq<(BlsKey, nat)>, i: nat)
    requires i < |statuses|
    ensures forall x :: Reported(reg, statuses[..i + 1], x) <==>
              Reported(reg, statuses[..i], x) || (statuses[i].1 != 0 && reg.NodeId(statuses[i].0) == x)
  {
    forall x ensures Reported(reg, statuses[..i + 1], x) <==>
              Reported(reg, statuses[..i], x) || (statuses[i].1 != 0 && reg.NodeId(statuses[i].0) == x)
    {
      if Reported(reg, statuses[..i + 1], x) {
        var j :| 0 <= j < i + 1 && statuses[..i + 1][j].1 != 0 && reg.NodeId(statuses[..i + 1][j].0) == x;
        if j < i {
          assert statuses[..i][j] == statuses[j];
        }
      }
      if Reported(reg, statuses[..i], x) {
        var j :| 0 <= j < i && statuses[..i][j].1 != 0 && reg.NodeId(statuses[..i][j].0) == x;
        assert statuses[..i + 1][j] == statuses[j];
      }
      if statuses[i].1 != 0 && reg.NodeId(statuses[i].0) == x {
        assert statuses[..i + 1][i] == statuses[i];
      }
    }
  }

  /** Over distinct ids, taking out the one occurrence of id (or finding
      none) leaves exactly the other ids. */
  lemma OkStep(nodeIds: seq<nat>, before: seq<nat>, after: seq<nat>, id: nat, removed: bool)
    requires Distinct(nodeIds) && multiset(before) <= multiset(nodeIds)
    requires removed ==> multiset(after) + multiset{id} == multiset(before)
    requires !removed ==> after == before && id !in before
    ensures id !in after
    ensures forall x :: x != id ==> (x in after <==> x in before)
  {
    DistinctCount(nodeIds, id);
    if removed {
      assert multiset(after)[id] == 0;
      forall x | x != id ensures x in after <==> x in before {
        assert multiset(after)[x] == multiset(before)[x];
      }
    }
  }

  lemma {:induction false} RemoveFaultSticks(r: Registry, keys: seq<BlsKey>, m: nat)
    requires m <= |keys| && RemoveLoop(r, keys[..m]).fault.Some?
    ensures RemoveLoop(r, keys) == RemoveLoop(r, keys[..m])
    decreases |keys| - m
  {
    if m < |keys| {
      assert keys[..m + 1][..m] == keys[..m];
      RemoveFaultSticks(r, keys, m + 1);
    } else {
      assert keys[..m] == keys;
    }
  }

  /** In a sequence without repeats every value occurs at most once. */
  lemma {:induction false} DistinctCount(s: seq<nat>, x: nat)
    requires Distinct(s)
    ensures multiset(s)[x] <= 1
    decreases |s|
  {
    if |s| > 0 {
      assert s == [s[0]] + s[1..];
      assert Distinct(s[1..]) by {
        forall p, q | 0 <= p < q < |s[1..]| ensures s[1..][p] != s[1..][q] {
          assert s[1..][p] == s[p + 1] && s[1..][q] == s[q + 1];
        }
      }
      DistinctCount(s[1..], x);
      if s[0] == x {
        assert x !in s[1..] by {
          forall p | 0 <= p < |s[1..]| ensures s[1..][p] != x {
            assert s[1..][p] == s[p + 1];
          }
        }
      }
    }
  }
}

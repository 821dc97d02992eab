/** Types shared by every part of the delegation contract model. */
module Common {

  /** Outcome of an endpoint or of a step that may fail. Err carries the
      message the contract reports. */
  datatype Result<T> = Ok(value: T) | Err(msg: string)

  datatype Option<T> = None | Some(value: T)

  /** Messages under which the model reports the two arithmetic aborts of the
      host's big unsigned integers (they stop the call, like an Err). */
  const UnderflowPanic: string := "big unsigned subtraction underflow"
  const DivisionByZeroPanic: string := "big unsigned division by zero"

  /** Account addresses, BLS public keys and signatures are opaque byte strings. */
  type Address = seq<bv8>
  type BlsKey = seq<bv8>
  type Signature = seq<bv8>

  /** Byte length a BLS signature must have. */
  const BlsSignatureByteLength: nat := 48

  /** What the external staking contract reports back to a callback. */
  datatype CallOutcome = Success | Failure(errMsg: string)

  /** An asynchronous call issued to the external staking contract, recorded
      together with its callback context (the node ids). */
  datatype AuctionCall =
    | StakeCall(nodeIds: seq<nat>, numNodes: nat, amount: nat)
    | UnStakeCall(nodeIds: seq<nat>, keys: seq<BlsKey>)
    | UnBondCall(nodeIds: seq<nat>, keys: seq<BlsKey>)

  /** A transfer of funds out of the contract, recorded instead of performed. */
  datatype Transfer = Transfer(to: Address, amount: nat)

  predicate Distinct<T(==)>(s: seq<T>)
  {
    forall p, q :: 0 <= p < q < |s| ==> s[p] != s[q]
  }

  function ValueAt(m: map<nat, nat>, k: nat): nat
  {
    if k in m then m[k] else 0
  }
}

/** Results of fallible operations, with the error kinds of `ProtocolError`. */
module Outcomes {

  datatype Option<+T> = None | Some(value: T)

  datatype ProtocolError =
    | InvalidInput(reason: string)
    | InvalidState(reason: string)
    | Decode(reason: string)
    | Generic(reason: string)
    | KeyGeneration(reason: string)
    | Handshake(reason: string)
    | ReplayAttack(reason: string)
    | GroupProtocol(reason: string)
    | GroupMembership(reason: string)
    | VoipCall(reason: string)
    | AllocationFailed(size: nat)
    | BufferTooSmall(capacity: nat, required: nat)

  datatype Result<+T> = Ok(value: T) | Err(error: ProtocolError) {
    predicate IsFailure() { Err? }

    function PropagateFailure<U>(): Result<U>
      requires Err?
    {
      Err(error)
    }

    function Extract(): T
      requires Ok?
    {
      value
    }
  }
}

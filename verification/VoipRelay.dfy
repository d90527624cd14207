/**
 The relay's lifecycle of a VoIP call: the stored record, what each signal does to it, and the
 retry loop around the store's compare-and-exchange.

 Device and call identifiers are opaque values compared for equality.  Timestamps are natural
 numbers; the saturating subtractions and the 32-bit rekey counter are written out.
 */
module VoipRelay {
  import opened Outcomes

  type Id = seq<nat>

  const VOIP_CALL_INIT_TIMEOUT_SECS := 30
  const VOIP_CALL_ACTIVE_IDLE_TIMEOUT_SECS := 5 * 60
  const VOIP_CALL_MAX_LIFETIME_SECS := 24 * 60 * 60
  const MAX_VOIP_CALL_COMPARE_EXCHANGE_RETRIES := 8
  const MAX_U32 := 0xFFFF_FFFF

  datatype CallState = Initiated | Active | Rekeying | Ended

  datatype Signal = CallInit | CallAccept | CallReject | CallEnd | Rekey | RekeyAck | OtherSignal(code: int)

  datatype Envelope = Envelope(signal: Signal, callId: Id, sender: Id, recipient: Id)

  datatype Action = Forward(target: Id) | ForwardAndRemove(target: Id)

  datatype Call = Call(
    callId: Id,
    caller: Id,
    callee: Id,
    state: CallState,
    startedAt: nat,
    lastActivityAt: nat,
    rekeyGeneration: nat,
    pendingRekeyFrom: Option<Id>)
  {
    function Peer(sender: Id): Option<Id> {
      if sender == caller then Some(callee) else if sender == callee then Some(caller) else None
    }

    predicate Expired(now: nat) {
      SaturatingSub(now, startedAt) > VOIP_CALL_MAX_LIFETIME_SECS ||
      var idle := SaturatingSub(now, lastActivityAt);
      match state
      case Initiated => idle > VOIP_CALL_INIT_TIMEOUT_SECS
      case Active => idle > VOIP_CALL_ACTIVE_IDLE_TIMEOUT_SECS
      case Rekeying => idle > VOIP_CALL_ACTIVE_IDLE_TIMEOUT_SECS
      case Ended => true
    }
  }

  function SaturatingSub(a: nat, b: nat): nat { if a < b then 0 else a - b }

  function NewCall(env: Envelope, now: nat): Call {
    Call(env.callId, env.sender, env.recipient, Initiated, now, now, 0, None)
  }

  type Store = map<Id, Call>

  function Find(store: Store, id: Id): Option<Call> {
    if id in store then Some(store[id]) else None
  }

  function Put(store: Store, id: Id, next: Option<Call>): Store {
    if next.Some? then store[id := next.value] else store - {id}
  }

  // ----- One pass of the loop body -----

  /** Either refuse outright, or try to replace the record that was read and answer `outcome`. */
  datatype Decision = Refuse(error: ProtocolError) | Swap(next: Option<Call>, outcome: Result<Action>)

  function Validate(env: Envelope, found: Option<Call>): Result<Call> {
    if found.None? then Err(VoipCall("call not found"))
    else
      var peer := found.value.Peer(env.sender);
      if peer.None? then Err(VoipCall("sender is not a participant of this call"))
      else if env.recipient != peer.value then Err(VoipCall("recipient is not the peer participant of this call"))
      else Ok(found.value)
  }

  function Target(env: Envelope, call: Call): Id {
    if env.sender == call.caller then call.callee else call.caller
  }

  function DecideRekeyAck(env: Envelope, now: nat, call: Call): Decision {
    if call.state != Rekeying then Refuse(VoipCall("rekey ack is only valid during rekeying"))
    else if call.pendingRekeyFrom.None? then Refuse(VoipCall("missing pending rekey initiator for rekey ack"))
    else if env.sender == call.pendingRekeyFrom.value then Refuse(VoipCall("rekey ack must come from the non-initiating peer"))
    else if env.recipient != call.pendingRekeyFrom.value then
      Refuse(VoipCall("rekey ack recipient does not match pending rekey initiator"))
    else if call.rekeyGeneration >= MAX_U32 then Refuse(VoipCall("relay rekey generation overflow"))
    else
      var next := call.(state := Active, rekeyGeneration := call.rekeyGeneration + 1,
                        pendingRekeyFrom := None, lastActivityAt := now);
      Swap(Some(next), Ok(Forward(Target(env, call))))
  }

  /** What one pass makes of a signal other than the initial one and the record it read. */
  function Decide(env: Envelope, now: nat, found: Option<Call>): Decision {
    var validated := Validate(env, found);
    if validated.Err? then Refuse(validated.error)
    else
      var call := validated.value;
      if call.Expired(now) then Swap(None, Err(VoipCall("call expired on relay")))
      else
        match env.signal
        case CallAccept =>
          if env.sender != call.callee then Refuse(VoipCall("only callee can accept"))
          else if call.state != Initiated then Refuse(VoipCall("call accept is only valid for initiated calls"))
          else
            Swap(Some(call.(state := Active, pendingRekeyFrom := None, lastActivityAt := now)), Ok(Forward(call.caller)))
        case CallReject =>
          if env.sender != call.callee then Refuse(VoipCall("only callee can reject"))
          else if call.state != Initiated then Refuse(VoipCall("call reject is only valid for initiated calls"))
          else Swap(None, Ok(ForwardAndRemove(call.caller)))
        case CallEnd =>
          if call.state == Ended then Refuse(VoipCall("call already ended"))
          else Swap(None, Ok(ForwardAndRemove(Target(env, call))))
        case Rekey =>
          if call.state != Active then Refuse(VoipCall("rekey is only valid for active calls"))
          else
            Swap(Some(call.(state := Rekeying, pendingRekeyFrom := Some(env.sender), lastActivityAt := now)),
                 Ok(Forward(Target(env, call))))
        case RekeyAck => DecideRekeyAck(env, now, call)
        case _ =>
          if call.state == Ended then Refuse(VoipCall("call already ended")) else Refuse(VoipCall("unknown VoIP signal type"))
  }

  // ----- The signal as one indivisible transition -----

  function Atomic(store: Store, env: Envelope, now: nat): (Store, Result<Action>) {
    if env.signal.CallInit? then
      if env.sender == env.recipient then (store, Err(VoipCall("caller and callee device_id must differ")))
      else if env.callId in store then (store, Err(VoipCall("call_id already exists")))
      else (store[env.callId := NewCall(env, now)], Ok(Forward(env.recipient)))
    else
      match Decide(env, now, Find(store, env.callId))
      case Refuse(error) => (store, Err(error))
      case Swap(next, outcome) => (Put(store, env.callId, next), outcome)
  }

  // ----- The store and the retry loop -----

  class CallStore {
    var calls: Store

    constructor ()
      ensures calls == map[]
    {
      calls := map[];
    }

    method FindCall(id: Id) returns (found: Option<Call>)
      ensures found == Find(calls, id)
    {
      found := Find(calls, id);
    }

    /** Replace the record for `id` if it still equals `current`; otherwise change nothing. */
    method CompareExchange(id: Id, current: Option<Call>, next: Option<Call>) returns (swapped: bool)
      modifies this
      ensures swapped <==> old(Find(calls, id)) == current
      ensures calls == if swapped then Put(old(calls), id, next) else old(calls)
    {
      swapped := Find(calls, id) == current;
      if swapped {
        calls := Put(calls, id, next);
      }
    }

    /**
     `process_voip_signal` under arbitrary interference: before access number `k` to the store,
     the other workers leave it as `world[k]`.  The call loses `lost` races, each by a change of its
     record between a read and the exchange, and then is the indivisible transition on the store of
     the next pass.  It gives up exactly when all eight passes are lost, and then changes nothing.
     */
    method ProcessSignal(env: Envelope, now: nat, world: seq<Store>) returns (r: Result<Action>, ghost lost: nat)
      requires |world| == 2 * MAX_VOIP_CALL_COMPARE_EXCHANGE_RETRIES
      modifies this
      ensures lost <= MAX_VOIP_CALL_COMPARE_EXCHANGE_RETRIES
      ensures LosesFirst(env, now, world, lost)
      ensures lost < MAX_VOIP_CALL_COMPARE_EXCHANGE_RETRIES ==>
              && !LosesRace(env, now, world[2 * lost], world[2 * lost + 1])
              && (calls, r) == Atomic(Decided(env, now, world[2 * lost], world[2 * lost + 1]), env, now)
      ensures lost == MAX_VOIP_CALL_COMPARE_EXCHANGE_RETRIES ==> calls == world[|world| - 1] && r == Err(InvalidState(RETRY))
      ensures r == Err(InvalidState(RETRY)) <==> LosesFirst(env, now, world, MAX_VOIP_CALL_COMPARE_EXCHANGE_RETRIES)
      ensures (forall s | s in world :: s == world[0]) ==> (calls, r) == Atomic(world[0], env, now)
    {
      if env.signal.CallInit? {
        lost := 0;
        r := ProcessInit(env, now, world[0]);
      } else {
        r, lost := ProcessUpdate(env, now, world);
      }
      NoRaceWithoutChange(env, now, world, lost);
    }

    /** Up to eight passes, each with its own read and exchange. */
    method ProcessUpdate(env: Envelope, now: nat, world: seq<Store>) returns (r: Result<Action>, ghost lost: nat)
      requires |world| == 2 * MAX_VOIP_CALL_COMPARE_EXCHANGE_RETRIES && !env.signal.CallInit?
      modifies this
      ensures lost <= MAX_VOIP_CALL_COMPARE_EXCHANGE_RETRIES && LosesFirst(env, now, world, lost)
      ensures lost < MAX_VOIP_CALL_COMPARE_EXCHANGE_RETRIES ==>
              && !LosesRace(env, now, world[2 * lost], world[2 * lost + 1]) && r != Err(InvalidState(RETRY))
              && (calls, r) == Atomic(Decided(env, now, world[2 * lost], world[2 * lost + 1]), env, now)
      ensures lost == MAX_VOIP_CALL_COMPARE_EXCHANGE_RETRIES ==> calls == world[|world| - 1] && r == Err(InvalidState(RETRY))
    {
      lost := 0;
      for tries := 0 to MAX_VOIP_CALL_COMPARE_EXCHANGE_RETRIES
        invariant lost == tries && (tries > 0 ==> calls == world[2 * tries - 1])
        invariant LosesFirst(env, now, world, tries)
      {
        var done;
        done, r := Pass(env, now, world[2 * tries], world[2 * tries + 1]);
        if done {
          return;
        }
        lost := lost + 1;
      }
      return Err(InvalidState(RETRY)), lost;
    }

    method ProcessInit(env: Envelope, now: nat, met: Store) returns (r: Result<Action>)
      requires env.signal.CallInit?
      modifies this
      ensures (calls, r) == Atomic(met, env, now) && r != Err(InvalidState(RETRY))
    {
      calls := met;
      if env.sender == env.recipient {
        return Err(VoipCall("caller and callee device_id must differ"));
      }
      var inserted := CompareExchange(env.callId, None, Some(NewCall(env, now)));
      if !inserted {
        return Err(VoipCall("call_id already exists"));
      }
      return Ok(Forward(env.recipient));
    }

    /** One pass of the loop: read, decide, exchange. */
    method Pass(env: Envelope, now: nat, read: Store, met: Store) returns (done: bool, r: Result<Action>)
      requires !env.signal.CallInit?
      modifies this
      ensures done <==> !LosesRace(env, now, read, met)
      ensures done ==> (calls, r) == Atomic(Decided(env, now, read, met), env, now) && r != Err(InvalidState(RETRY))
      ensures !done ==> calls == met
    {
      calls := read;
      var found := FindCall(env.callId);
      var d := Decide(env, now, found);
      DecidesWithoutRetry(env, now, found);
      AtomicByDecision(read, env, now, d);
      if d.Refuse? {
        return true, Err(d.error);
      }
      calls := met;
      done := CompareExchange(env.callId, found, d.next);
      if done {
        AtomicByDecision(met, env, now, d);
      }
      r := d.outcome;
    }
  }

  lemma AtomicByDecision(store: Store, env: Envelope, now: nat, d: Decision)
    requires !env.signal.CallInit? && d == Decide(env, now, Find(store, env.callId))
    ensures d.Refuse? ==> Atomic(store, env, now) == (store, Err(d.error))
    ensures d.Swap? ==> Atomic(store, env, now) == (Put(store, env.callId, d.next), d.outcome)
  {
  }

  /** Between a pass's read of `read` and its exchange on `met` the record it wants to replace has changed. */
  ghost predicate LosesRace(env: Envelope, now: nat, read: Store, met: Store) {
    && !env.signal.CallInit?
    && Decide(env, now, Find(read, env.callId)).Swap?
    && Find(met, env.callId) != Find(read, env.callId)
  }

  /** The first `n` passes lose their races. */
  ghost predicate LosesFirst(env: Envelope, now: nat, world: seq<Store>, n: nat)
    requires 2 * n <= |world|
  {
    forall k | 0 <= k < n :: LosesRace(env, now, world[2 * k], world[2 * k + 1])
  }

  /** The store on which a pass that does not lose takes effect: at the read if it refuses, else at the exchange. */
  ghost function Decided(env: Envelope, now: nat, read: Store, met: Store): Store {
    if env.signal.CallInit? || Decide(env, now, Find(read, env.callId)).Refuse? then read else met
  }

  /** In a world that stands still the first pass does not lose, and it takes effect on that world's store. */
  lemma NoRaceWithoutChange(env: Envelope, now: nat, world: seq<Store>, lost: nat)
    requires 2 <= |world| && 2 * lost <= |world| && LosesFirst(env, now, world, lost)
    ensures (forall s | s in world :: s == world[0]) ==> lost == 0 && Decided(env, now, world[0], world[1]) == world[0]
  {
    assert world[1] in world;
    if lost > 0 {
      assert LosesRace(env, now, world[2 * 0], world[2 * 0 + 1]);
    }
  }

  lemma DecidesWithoutRetry(env: Envelope, now: nat, found: Option<Call>)
    ensures var d := Decide(env, now, found);
            if d.Refuse? then d.error.VoipCall? else d.outcome.Err? ==> d.outcome.error.VoipCall?
  {
  }

  lemma AtomicWithoutRetry(store: Store, env: Envelope, now: nat)
    ensures Atomic(store, env, now).1 != Err(InvalidState(RETRY))
  {
    DecidesWithoutRetry(env, now, Find(store, env.callId));
  }

  const RETRY := "VoIP call state changed concurrently; retry signal"

  // ----- What every stored record satisfies -----

  ghost predicate GoodCall(id: Id, call: Call) {
    && call.callId == id
    && call.caller != call.callee
    && call.state != Ended
    && (call.pendingRekeyFrom.Some? <==> call.state == Rekeying)
    && (call.pendingRekeyFrom.Some? ==> call.pendingRekeyFrom.value in {call.caller, call.callee})
    && call.rekeyGeneration <= MAX_U32
  }

  ghost predicate GoodStore(store: Store) {
    forall id | id in store :: GoodCall(id, store[id])
  }

  /** A pass over a good record proposes a good record, and answers the other participant. */
  lemma DecideKeepsGoodCall(id: Id, env: Envelope, now: nat, call: Call)
    requires GoodCall(id, call) && Decide(env, now, Some(call)).Swap?
    ensures var d := Decide(env, now, Some(call));
      && (d.next.Some? ==> GoodCall(id, d.next.value))
      && (d.outcome.Ok? ==> d.outcome.value.target == env.recipient != env.sender)
      && (d.outcome.Ok? ==> (d.outcome.value.ForwardAndRemove? <==> d.next.None?))
  {
    match env.signal {
      case CallAccept =>
      case CallReject =>
      case CallEnd =>
      case Rekey =>
      case RekeyAck =>
      case CallInit =>
      case OtherSignal(_) =>
    }
  }

  lemma AtomicKeepsGoodStore(store: Store, env: Envelope, now: nat)
    requires GoodStore(store)
    ensures GoodStore(Atomic(store, env, now).0)
  {
    var id := env.callId;
    if !env.signal.CallInit? && id in store && Decide(env, now, Some(store[id])).Swap? {
      DecideKeepsGoodCall(id, env, now, store[id]);
    }
  }

  /** A forwarded signal goes to the envelope's recipient, who is the other participant. */
  lemma ForwardsToPeer(store: Store, env: Envelope, now: nat)
    requires GoodStore(store) && Atomic(store, env, now).1.Ok?
    ensures Atomic(store, env, now).1.value.target == env.recipient != env.sender
    ensures Atomic(store, env, now).1.value.ForwardAndRemove? <==> env.callId !in Atomic(store, env, now).0
  {
    if !env.signal.CallInit? {
      DecideKeepsGoodCall(env.callId, env, now, store[env.callId]);
    }
  }

  /** Only the callee answers an initiated call, and only the peer of a rekey's initiator acknowledges it. */
  lemma WhoMayAnswer(store: Store, env: Envelope, now: nat)
    requires Atomic(store, env, now).1.Ok? && env.signal in {CallAccept, CallReject, RekeyAck}
    ensures env.callId in store && var call := store[env.callId];
      if env.signal == RekeyAck then call.state == Rekeying && call.pendingRekeyFrom == Some(env.recipient)
      else call.state == Initiated && env.sender == call.callee
  {
    match env.signal {
      case CallAccept =>
      case CallReject =>
      case RekeyAck =>
    }
  }

  /** Signals for one call never touch the record of another. */
  lemma OtherCallsUntouched(store: Store, env: Envelope, now: nat, other: Id)
    requires other != env.callId
    ensures Find(Atomic(store, env, now).0, other) == Find(store, other)
  {
  }

  // ----- When a signal is accepted -----

  /** The envelope runs between the two participants. */
  ghost predicate Between(call: Call, env: Envelope) {
    || (env.sender == call.caller && env.recipient == call.callee)
    || (env.sender == call.callee && env.recipient == call.caller)
  }

  /** At most a day old, and idle for at most half a minute while ringing or five minutes afterwards. */
  ghost predicate Current(call: Call, now: nat) {
    && call.state != Ended
    && now <= call.startedAt + 86400
    && now <= call.lastActivityAt + if call.state == Initiated then 30 else 300
  }

  ghost predicate Expected(call: Call, env: Envelope) {
    match env.signal
    case CallAccept => call.state == Initiated && env.sender == call.callee
    case CallReject => call.state == Initiated && env.sender == call.callee
    case CallEnd => true
    case Rekey => call.state == Active
    case RekeyAck =>
      && call.state == Rekeying && call.pendingRekeyFrom == Some(env.recipient)
      && env.recipient != env.sender && call.rekeyGeneration < 0xFFFF_FFFF
    case _ => false
  }

  /** Exactly the signals that are forwarded, from the record alone. */
  lemma AcceptedExactlyWhen(store: Store, env: Envelope, now: nat)
    ensures Atomic(store, env, now).1.Ok? <==>
            if env.signal.CallInit? then env.sender != env.recipient && env.callId !in store
            else
              && env.callId in store
              && var call := store[env.callId];
                 (if env.sender == call.caller then env.recipient == call.callee else Between(call, env))
                 && Current(call, now) && Expected(call, env)
  {
    if !env.signal.CallInit? && env.callId in store {
      var call := store[env.callId];
      assert call.Expired(now) <==> !Current(call, now);
    }
  }

  /** A record that a signal leaves behind was touched by it and keeps its participants and its start. */
  lemma AcceptanceTouches(store: Store, env: Envelope, now: nat)
    requires Atomic(store, env, now).1.Ok? && env.callId in Atomic(store, env, now).0
    ensures var next := Atomic(store, env, now).0[env.callId];
            && next.lastActivityAt == now && next.callId == (if env.signal.CallInit? then env.callId else store[env.callId].callId)
            && (if env.signal.CallInit? then next.caller == env.sender && next.callee == env.recipient && next.startedAt == now
                else next.caller == store[env.callId].caller && next.callee == store[env.callId].callee
                     && next.startedAt == store[env.callId].startedAt)
            && next.state == (match env.signal case CallInit => Initiated case Rekey => Rekeying case _ => Active)
            && next.pendingRekeyFrom == if env.signal.Rekey? then Some(env.sender) else None
  {
  }

  /** A signal between the participants of an expired call removes its record and is not forwarded; a refusal changes nothing. */
  lemma RefusalsAndExpiry(store: Store, env: Envelope, now: nat)
    requires Atomic(store, env, now).1.Err? && !env.signal.CallInit?
    ensures Atomic(store, env, now).0 ==
            if env.callId in store && !Current(store[env.callId], now)
               && (if env.sender == store[env.callId].caller then env.recipient == store[env.callId].callee
                   else Between(store[env.callId], env))
            then store - {env.callId} else store
  {
    if env.callId in store {
      var call := store[env.callId];
      assert call.Expired(now) <==> !Current(call, now);
    }
  }
}

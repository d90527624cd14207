/**
 The order of the signals that the relay forwards for one call.

 `Conversation` describes the admissible orders as a grammar that knows nothing of the relay's
 states: Init, then Reject, End, or Accept (Rekey RekeyAck)* [Rekey] End, possibly cut short.
 `ForwardedSignalsConverse` shows that every sequence of transitions from an empty store forwards,
 for every call and every incarnation of it, signals in such an order, and that the record counts
 the acknowledgements.
 */
module VoipLifecycle {
  import opened Outcomes
  import opened VoipRelay

  // ----- The grammar -----

  predicate Conversation(w: seq<Signal>) {
    w == [] || (w[0] == CallInit && Answered(w[1..]))
  }

  predicate Answered(w: seq<Signal>) {
    w == [] || w == [CallReject] || w == [CallEnd] || (w[0] == CallAccept && Talking(w[1..]))
  }

  predicate Talking(w: seq<Signal>) {
    w == [] || w == [CallEnd] || w == [Rekey] || w == [Rekey, CallEnd]
    || (|w| >= 2 && w[0] == Rekey && w[1] == RekeyAck && Talking(w[2..]))
  }

  function Acks(w: seq<Signal>): nat {
    if w == [] then 0 else Acks(w[..|w| - 1]) + (if w[|w| - 1] == RekeyAck then 1 else 0)
  }

  // ----- Runs of indivisible transitions -----

  /** A signal and the time at which it takes effect. */
  datatype Op = Op(env: Envelope, now: nat)

  function After(store: Store, ops: seq<Op>): Store {
    if ops == [] then store
    else
      var last := ops[|ops| - 1];
      Atomic(After(store, ops[..|ops| - 1]), last.env, last.now).0
  }

  /** The forwarded signals of `id` once more transition on `store` has been made. */
  function Extend(store: Store, w: seq<Signal>, op: Op, id: Id): seq<Signal> {
    if op.env.callId != id || Atomic(store, op.env, op.now).1.Err? then w
    else if op.env.signal == CallInit then [CallInit]
    else w + [op.env.signal]
  }

  /** The signals forwarded for `id` since its latest successful Init. */
  function Forwarded(ops: seq<Op>, id: Id): seq<Signal> {
    if ops == [] then []
    else
      var before := ops[..|ops| - 1];
      Extend(After(map[], before), Forwarded(before, id), ops[|ops| - 1], id)
  }

  // ----- The invariant -----

  /** `n` completed rekeys. */
  function Rekeys(n: nat): seq<Signal> {
    if n == 0 then [] else Rekeys(n - 1) + [Rekey, RekeyAck]
  }

  /** What has been forwarded when the record is in the given state with `n` completed rekeys. */
  function WordOf(state: CallState, n: nat): seq<Signal> {
    match state
    case Initiated => [CallInit]
    case Active => [CallInit, CallAccept] + Rekeys(n)
    case Rekeying => [CallInit, CallAccept] + Rekeys(n) + [Rekey]
    case Ended => []
  }

  ghost predicate Tracks(call: Call, w: seq<Signal>) {
    && w == WordOf(call.state, call.rekeyGeneration)
    && (call.state == Initiated ==> call.rekeyGeneration == 0)
  }

  lemma {:induction false} TalkingAfterRekeys(n: nat, tail: seq<Signal>)
    requires Talking(tail)
    ensures Talking(Rekeys(n) + tail)
  {
    if n == 0 {
      assert Rekeys(0) + tail == tail;
    } else {
      var rest := [Rekey, RekeyAck] + tail;
      assert rest[2..] == tail;
      TalkingAfterRekeys(n - 1, rest);
      assert Rekeys(n) + tail == Rekeys(n - 1) + rest;
    }
  }

  /** The word of every live state converses, and so does any legal continuation of it. */
  lemma WordsConverse(call: Call, next: Option<Signal>)
    requires call.state != Ended
    requires next.Some? ==> match next.value {
      case CallReject => call.state == Initiated
      case CallEnd => true
      case _ => false
    }
    ensures Conversation(WordOf(call.state, call.rekeyGeneration) + if next.Some? then [next.value] else [])
  {
    var tail := if next.Some? then [next.value] else [];
    var w := WordOf(call.state, call.rekeyGeneration) + tail;
    match call.state {
      case Initiated =>
        assert w[1..] == tail;
      case Active =>
        TalkingAfterRekeys(call.rekeyGeneration, tail);
        assert w[1..][1..] == Rekeys(call.rekeyGeneration) + tail;
      case Rekeying =>
        TalkingAfterRekeys(call.rekeyGeneration, [Rekey] + tail);
        assert w[1..][1..] == Rekeys(call.rekeyGeneration) + ([Rekey] + tail);
    }
  }

  lemma {:induction false} AcksAppend(w: seq<Signal>, s: Signal)
    ensures Acks(w + [s]) == Acks(w) + (if s == RekeyAck then 1 else 0)
  {
    assert (w + [s])[..|w|] == w;
  }

  lemma {:induction false} AcksOfWord(n: nat)
    ensures Acks([CallInit, CallAccept] + Rekeys(n)) == n
  {
    var w := [CallInit, CallAccept];
    if n == 0 {
      assert w + Rekeys(0) == ([] + [CallInit]) + [CallAccept];
      AcksAppend([], CallInit);
      AcksAppend([] + [CallInit], CallAccept);
    } else {
      AcksOfWord(n - 1);
      assert w + Rekeys(n) == (w + Rekeys(n - 1) + [Rekey]) + [RekeyAck];
      AcksAppend(w + Rekeys(n - 1), Rekey);
      AcksAppend(w + Rekeys(n - 1) + [Rekey], RekeyAck);
    }
  }

  lemma AcksTracked(call: Call, w: seq<Signal>)
    requires call.state != Ended && Tracks(call, w)
    ensures Acks(w) == call.rekeyGeneration
  {
    AcksOfWord(call.rekeyGeneration);
    match call.state {
      case Initiated =>
        assert w == [] + [CallInit];
        AcksAppend([], CallInit);
      case Active =>
      case Rekeying =>
        AcksAppend([CallInit, CallAccept] + Rekeys(call.rekeyGeneration), Rekey);
    }
  }

  /** One pass that swaps in a successor extends the forwarded word by exactly its signal. */
  lemma PassTracks(id: Id, env: Envelope, now: nat, call: Call, w: seq<Signal>)
    requires GoodCall(id, call) && Tracks(call, w) && env.signal != CallInit
    requires var d := Decide(env, now, Some(call)); d.Swap? && d.outcome.Ok?
    ensures var d := Decide(env, now, Some(call));
      if d.next.Some? then Tracks(d.next.value, w + [env.signal])
      else Conversation(w + [env.signal])
  {
    match env.signal {
      case CallAccept =>
        assert [CallInit] + [CallAccept] == [CallInit, CallAccept] + Rekeys(0);
      case CallReject =>
        WordsConverse(call, Some(CallReject));
      case CallEnd =>
        WordsConverse(call, Some(CallEnd));
      case Rekey =>
      case RekeyAck =>
        var n := call.rekeyGeneration;
        assert w + [RekeyAck] == [CallInit, CallAccept] + Rekeys(n + 1);
      case OtherSignal(_) =>
    }
  }

  /** The stored record of `id`, if any, is good and accounts for the forwarded signals `w`. */
  ghost predicate Consistent(store: Store, w: seq<Signal>, id: Id) {
    && Conversation(w)
    && (id in store ==> GoodCall(id, store[id]) && Tracks(store[id], w))
  }

  lemma StepKeepsConsistent(store: Store, w: seq<Signal>, op: Op, id: Id)
    requires Consistent(store, w, id)
    ensures Consistent(Atomic(store, op.env, op.now).0, Extend(store, w, op, id), id)
  {
    if op.env.callId != id {
      OtherCallsUntouched(store, op.env, op.now, id);
    } else if op.env.signal == CallInit {
      FreshCallTracks(op.env, op.now);
    } else if id in store {
      SignalKeepsConsistent(store, w, op, id);
    }
  }

  /** The word after a pass: longer by the signal if it was forwarded. */
  function WordAfter(w: seq<Signal>, signal: Signal, outcome: Result<Action>): seq<Signal> {
    if outcome.Ok? then w + [signal] else w
  }

  lemma PassKeepsConsistent(id: Id, env: Envelope, now: nat, call: Call, w: seq<Signal>, d: Decision)
    requires GoodCall(id, call) && Tracks(call, w) && Conversation(w) && env.signal != CallInit
    requires d == Decide(env, now, Some(call)) && d.Swap?
    ensures Conversation(WordAfter(w, env.signal, d.outcome))
    ensures d.next.Some? ==> GoodCall(id, d.next.value) && Tracks(d.next.value, WordAfter(w, env.signal, d.outcome))
  {
    DecideKeepsGoodCall(id, env, now, call);
    if d.outcome.Ok? {
      PassTracks(id, env, now, call, w);
      if d.next.Some? {
        WordsConverse(d.next.value, None);
        assert w + [env.signal] + [] == w + [env.signal];
      }
    }
  }

  lemma SignalKeepsConsistent(store: Store, w: seq<Signal>, op: Op, id: Id)
    requires Consistent(store, w, id) && op.env.callId == id && op.env.signal != CallInit && id in store
    ensures Consistent(Atomic(store, op.env, op.now).0, Extend(store, w, op, id), id)
  {
    var d := Decide(op.env, op.now, Find(store, id));
    AtomicByDecision(store, op.env, op.now, d);
    if d.Swap? {
      PassKeepsConsistent(id, op.env, op.now, store[id], w, d);
    }
  }

  lemma FreshCallTracks(env: Envelope, now: nat)
    ensures Tracks(NewCall(env, now), [CallInit]) && Conversation([CallInit])
  {
  }

  lemma {:induction false} RunHolds(ops: seq<Op>, id: Id)
    ensures Consistent(After(map[], ops), Forwarded(ops, id), id)
    decreases |ops|
  {
    if ops != [] {
      var before := ops[..|ops| - 1];
      RunHolds(before, id);
      StepKeepsConsistent(After(map[], before), Forwarded(before, id), ops[|ops| - 1], id);
    }
  }

  /**
   From an empty store, whatever signals arrive and whenever, the signals forwarded for any call
   since its latest Init follow the grammar, every stored record is good, and its rekey
   generation is the number of acknowledgements forwarded.
   */
  lemma ForwardedSignalsConverse(ops: seq<Op>, id: Id)
    ensures Conversation(Forwarded(ops, id))
    ensures id in After(map[], ops) ==>
      var call := After(map[], ops)[id];
      GoodCall(id, call) && call.rekeyGeneration == Acks(Forwarded(ops, id))
  {
    RunHolds(ops, id);
    if id in After(map[], ops) {
      AcksTracked(After(map[], ops)[id], Forwarded(ops, id));
    }
  }
}

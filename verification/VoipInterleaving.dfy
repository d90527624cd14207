/**
 Many workers running `process_voip_signal` against one shared store, as a state machine in
 which every access to the store is a separate step and the steps of different workers
 interleave freely.

 A worker's call of the function starts, reads the record and decides, tries the
 compare-and-exchange, retries up to eight times, and returns.  Any access may also fail with an
 error of the store itself, in which case the store is taken to be unchanged.  The history of
 a run records starts, returns, the moments at which signals take effect, and the exchanges that
 fail.  `Linearizable` is the main theorem: in every run those moments, in their order, explain the
 store and every answer by indivisible transitions, and each lies between the start and the return
 of its call.  `GivingUpNeedsContention` is about progress: a call gives up only after eight failed
 exchanges, each caused by another worker that changed the record meanwhile.
 */
module VoipInterleaving {
  import opened Outcomes
  import opened VoipRelay
  import opened VoipLifecycle

  /** Where a worker is in `process_voip_signal`. */
  datatype Worker =
    | Idle
    | Reading(op: Op, tries: nat)
    | Swapping(op: Op, tries: nat, since: nat, current: Option<Call>, next: Option<Call>, outcome: Result<Action>)
    | Returning(op: Op, result: Result<Action>, took: bool)

  datatype Event =
    | Start(worker: nat, op: Op)
    | Effect(worker: nat, op: Op, result: Result<Action>)
    | Lost(worker: nat, op: Op, number: nat, since: nat)
    | Return(worker: nat, result: Result<Action>)

  datatype System = System(store: Store, workers: map<nat, Worker>, history: seq<Event>) {
    function At(w: nat): Worker { if w in workers then workers[w] else Idle }

    function Move(w: nat, to: Worker, events: seq<Event>): System {
      this.(workers := workers[w := to], history := history + events)
    }
  }

  const STORE_FAILED := "call store failed"

  // ----- Steps -----

  function Begin(s: System, w: nat, op: Op): System {
    s.Move(w, Reading(op, 0), [Start(w, op)])
  }

  /** Settle what to exchange: a new record for an Init, or what the record read calls for. */
  function Read(s: System, w: nat): System
    requires s.At(w).Reading?
  {
    var Reading(op, tries) := s.At(w);
    if op.env.signal.CallInit? then
      if op.env.sender == op.env.recipient then
        var r := Err(VoipCall("caller and callee device_id must differ"));
        s.Move(w, Returning(op, r, true), [Effect(w, op, r)])
      else
        s.Move(w, Swapping(op, tries, |s.history|, None, Some(NewCall(op.env, op.now)), Ok(Forward(op.env.recipient))), [])
    else
      var found := Find(s.store, op.env.callId);
      match Decide(op.env, op.now, found)
      case Refuse(error) => s.Move(w, Returning(op, Err(error), true), [Effect(w, op, Err(error))])
      case Swap(next, outcome) => s.Move(w, Swapping(op, tries, |s.history|, found, next, outcome), [])
  }

  /** Try the compare-and-exchange. */
  function Exchange(s: System, w: nat): System
    requires s.At(w).Swapping?
  {
    var Swapping(op, tries, since, current, next, outcome) := s.At(w);
    if Find(s.store, op.env.callId) == current then
      s.(store := Put(s.store, op.env.callId, next)).Move(w, Returning(op, outcome, true), [Effect(w, op, outcome)])
    else if op.env.signal.CallInit? then
      var r := Err(VoipCall("call_id already exists"));
      s.Move(w, Returning(op, r, true), [Effect(w, op, r)])
    else
      var e := Lost(w, op, tries + 1, since);
      if tries + 1 < MAX_VOIP_CALL_COMPARE_EXCHANGE_RETRIES then s.Move(w, Reading(op, tries + 1), [e])
      else s.Move(w, Returning(op, Err(InvalidState(RETRY)), false), [e])
  }

  function Fail(s: System, w: nat): System
    requires s.At(w).Reading? || s.At(w).Swapping?
  {
    s.Move(w, Returning(s.At(w).op, Err(Generic(STORE_FAILED)), false), [])
  }

  function Finish(s: System, w: nat): System
    requires s.At(w).Returning?
  {
    s.Move(w, Idle, [Return(w, s.At(w).result)])
  }

  ghost predicate Step(s: System, s': System, w: nat) {
    match s.At(w)
    case Idle => exists op :: s' == Begin(s, w, op)
    case Reading(_, _) => s' == Read(s, w) || s' == Fail(s, w)
    case Swapping(_, _, _, _, _, _) => s' == Exchange(s, w) || s' == Fail(s, w)
    case Returning(_, _, _) => s' == Finish(s, w)
  }

  /** A run: any number of steps, `schedule[i]` being the worker that makes step `i`. */
  ghost predicate Run(states: seq<System>, schedule: seq<nat>) {
    && |states| == |schedule| + 1
    && states[0].workers == map[] && states[0].history == []
    && forall i | 0 <= i < |schedule| :: Step(states[i], states[i + 1], schedule[i])
  }

  // ----- Histories -----

  /** The operations that took effect, in order. */
  function Effects(h: seq<Event>): seq<Op> {
    if h == [] then []
    else
      var last := h[|h| - 1];
      Effects(h[..|h| - 1]) + if last.Effect? then [last.op] else []
  }

  /** Replaying the effects one at a time from `store` gives exactly the recorded answers. */
  ghost predicate AnswersAreAtomic(store: Store, h: seq<Event>) {
    h == [] ||
    var last, before := h[|h| - 1], h[..|h| - 1];
    && AnswersAreAtomic(store, before)
    && (last.Effect? ==> last.result == Atomic(After(store, Effects(before)), last.op.env, last.op.now).1)
  }

  /** The store once the first `n` events of a history have happened. */
  function StoreAt(initial: Store, h: seq<Event>, n: nat): Store
    requires n <= |h|
  {
    After(initial, Effects(h[..n]))
  }

  /** Event `j` changed the record of `id`. */
  ghost predicate ChangesRecord(initial: Store, h: seq<Event>, j: nat, id: Id)
    requires j < |h|
  {
    h[j].Effect? && Find(StoreAt(initial, h, j + 1), id) != Find(StoreAt(initial, h, j), id)
  }

  /** Since the read of the lost exchange at `i`, another worker changed the record, and its own worker did nothing. */
  ghost predicate HasCause(initial: Store, h: seq<Event>, i: nat)
    requires i < |h| && h[i].Lost?
  {
    && h[i].since <= i && (forall j | h[i].since <= j < i :: h[j].worker != h[i].worker)
    && exists j :: h[i].since <= j < i && ChangesRecord(initial, h, j, h[i].op.env.callId)
  }

  ghost predicate LossesHaveCauses(initial: Store, h: seq<Event>) {
    forall i | 0 <= i < |h| && h[i].Lost? :: HasCause(initial, h, i)
  }

  /** How far worker `w` has come in its current call, read off the history. */
  datatype Progress = Out | Started(op: Op, losses: nat) | Effective(op: Op, result: Result<Action>)

  function ProgressAfter(e: Event): Progress {
    match e
    case Start(_, op) => Started(op, 0)
    case Lost(_, op, number, _) => Started(op, number)
    case Effect(_, op, result) => Effective(op, result)
    case Return(_, _) => Out
  }

  function ProgressOf(h: seq<Event>, w: nat): Progress {
    if h == [] then Out
    else if h[|h| - 1].worker == w then ProgressAfter(h[|h| - 1])
    else ProgressOf(h[..|h| - 1], w)
  }

  /** The two ways to return without effect: after eight lost exchanges, or on an error of the store. */
  ghost predicate IsGiveUp(losses: nat, r: Result<Action>) {
    (r == Err(InvalidState(RETRY)) && losses == 8) || r == Err(Generic(STORE_FAILED))
  }

  /** `e` is a possible next event of its worker. */
  ghost predicate Follows(before: Progress, e: Event) {
    match e
    case Start(_, op) => before == Out
    case Effect(_, op, result) => before.Started? && before.op == op
    case Lost(_, op, number, _) => number > 0 && before == Started(op, number - 1)
    case Return(_, result) =>
      (before.Effective? && before.result == result) || (before.Started? && IsGiveUp(before.losses, result))
  }

  /**
   Every call takes effect at most once, between its start and its return, with the answer it
   returns; a call that returns without effect reports an error of the store, or that it gave up
   after its eighth lost exchange.
   */
  ghost predicate WellOrdered(h: seq<Event>) {
    h == [] ||
    var last, before := h[|h| - 1], h[..|h| - 1];
    WellOrdered(before) && Follows(ProgressOf(before, last.worker), last)
  }

  // ----- The invariant -----

  /** Nothing from `since` on is an event of `w`. */
  ghost predicate Silent(h: seq<Event>, since: nat, w: nat) {
    since <= |h| && forall i | since <= i < |h| :: h[i].worker != w
  }

  ghost predicate WorkerInvariant(initial: Store, h: seq<Event>, worker: Worker, w: nat) {
    var progress := ProgressOf(h, w);
    match worker
    case Idle => progress == Out
    case Reading(op, tries) => progress == Started(op, tries) && tries < 8
    case Swapping(op, tries, since, current, next, outcome) =>
      && progress == Started(op, tries) && tries < 8 && Silent(h, since, w)
      && if op.env.signal.CallInit? then
           op.env.sender != op.env.recipient && current == None
           && next == Some(NewCall(op.env, op.now)) && outcome == Ok(Forward(op.env.recipient))
         else
           && Decide(op.env, op.now, current) == Swap(next, outcome)
           && current == Find(StoreAt(initial, h, since), op.env.callId)
    case Returning(op, result, took) =>
      if took then progress == Effective(op, result) && result != Err(InvalidState(RETRY))
      else progress.Started? && progress.op == op && IsGiveUp(progress.losses, result)
  }

  ghost predicate Invariant(initial: Store, s: System) {
    && s.store == After(initial, Effects(s.history))
    && AnswersAreAtomic(initial, s.history)
    && WellOrdered(s.history)
    && LossesHaveCauses(initial, s.history)
    && forall w :: WorkerInvariant(initial, s.history, s.At(w), w)
  }

  lemma Append(h: seq<Event>, e: Event)
    ensures Effects(h + [e]) == Effects(h) + if e.Effect? then [e.op] else []
    ensures forall w :: ProgressOf(h + [e], w) == if w == e.worker then ProgressAfter(e) else ProgressOf(h, w)
    ensures WellOrdered(h + [e]) <==> WellOrdered(h) && Follows(ProgressOf(h, e.worker), e)
  {
    assert (h + [e])[..|h|] == h;
  }

  lemma AppendAnswer(initial: Store, h: seq<Event>, e: Event)
    ensures AnswersAreAtomic(initial, h + [e]) <==>
      (AnswersAreAtomic(initial, h) &&
       (e.Effect? ==> e.result == Atomic(After(initial, Effects(h)), e.op.env, e.op.now).1))
  {
    assert (h + [e])[..|h|] == h;
  }

  lemma AfterAppend(initial: Store, ops: seq<Op>, op: Op)
    ensures After(initial, ops + [op]) == Atomic(After(initial, ops), op.env, op.now).0
  {
    assert (ops + [op])[..|ops|] == ops;
  }

  lemma {:induction false} RecordUnchanged(initial: Store, h: seq<Event>, since: nat, id: Id)
    requires since <= |h|
    requires forall j | since <= j < |h| :: !ChangesRecord(initial, h, j, id)
    ensures Find(After(initial, Effects(h)), id) == Find(StoreAt(initial, h, since), id)
    decreases |h|
  {
    if since == |h| {
      assert h[..since] == h;
    } else {
      var front := h[..|h| - 1];
      forall j | since <= j < |front| ensures !ChangesRecord(initial, front, j, id) {
        assert front[..j] == h[..j] && front[..j + 1] == h[..j + 1];
        assert !ChangesRecord(initial, h, j, id);
      }
      RecordUnchanged(initial, front, since, id);
      assert front[..since] == h[..since];
      assert h[..|h|] == h && !ChangesRecord(initial, h, |h| - 1, id);
      assert Effects(front) + [] == Effects(front);
    }
  }

  /** Events already past keep their causes. */
  lemma CausesPersist(initial: Store, h: seq<Event>, e: Event)
    requires LossesHaveCauses(initial, h) && !e.Lost?
    ensures LossesHaveCauses(initial, h + [e])
  {
    var h' := h + [e];
    forall i | 0 <= i < |h'| && h'[i].Lost? ensures HasCause(initial, h', i) {
      CausePersists(initial, h, e, i);
    }
  }

  lemma ChangePersists(initial: Store, h: seq<Event>, e: Event, j: nat, id: Id)
    requires j < |h|
    ensures ChangesRecord(initial, h + [e], j, id) == ChangesRecord(initial, h, j, id)
  {
    assert (h + [e])[..j] == h[..j] && (h + [e])[..j + 1] == h[..j + 1];
  }

  lemma CausePersists(initial: Store, h: seq<Event>, e: Event, i: nat)
    requires i < |h| && h[i].Lost? && HasCause(initial, h, i)
    ensures HasCause(initial, h + [e], i)
  {
    var j :| h[i].since <= j < i && ChangesRecord(initial, h, j, h[i].op.env.callId);
    ChangePersists(initial, h, e, j, h[i].op.env.callId);
  }

  /** A lost exchange of a silent worker, whose record is no longer the one it read, has a cause. */
  lemma LossHasCause(initial: Store, h: seq<Event>, w: nat, op: Op, number: nat, since: nat)
    requires LossesHaveCauses(initial, h) && Silent(h, since, w)
    requires Find(After(initial, Effects(h)), op.env.callId) != Find(StoreAt(initial, h, since), op.env.callId)
    ensures LossesHaveCauses(initial, h + [Lost(w, op, number, since)])
  {
    var e := Lost(w, op, number, since);
    var h' := h + [e];
    if forall j | since <= j < |h| :: !ChangesRecord(initial, h, j, op.env.callId) {
      RecordUnchanged(initial, h, since, op.env.callId);
    }
    var j :| since <= j < |h| && ChangesRecord(initial, h, j, op.env.callId);
    ChangePersists(initial, h, e, j, op.env.callId);
    assert ChangesRecord(initial, h', j, h'[|h|].op.env.callId);
    forall i | 0 <= i < |h'| && h'[i].Lost? ensures HasCause(initial, h', i) {
      if i < |h| {
        CausePersists(initial, h, e, i);
      }
    }
  }

  /** An event of another worker leaves a worker's place in order. */
  lemma OthersUndisturbed(initial: Store, h: seq<Event>, e: Event, worker: Worker, v: nat)
    requires WorkerInvariant(initial, h, worker, v) && e.worker != v
    ensures WorkerInvariant(initial, h + [e], worker, v)
  {
    Append(h, e);
    if worker.Swapping? {
      assert (h + [e])[..worker.since] == h[..worker.since];
    }
  }

  /** A step without event keeps the invariant if the worker's new place fits its progress. */
  lemma QuietStep(initial: Store, s: System, s': System, w: nat, to: Worker)
    requires Invariant(initial, s) && s' == s.Move(w, to, [])
    requires WorkerInvariant(initial, s.history, to, w)
    ensures Invariant(initial, s')
  {
    assert s.history + [] == s.history;
    forall v ensures WorkerInvariant(initial, s'.history, s'.At(v), v) {
      assert v != w ==> s'.At(v) == s.At(v);
    }
  }

  lemma WorkersAfterEvent(initial: Store, s: System, s': System, w: nat, to: Worker, e: Event)
    requires forall v :: WorkerInvariant(initial, s.history, s.At(v), v)
    requires s'.workers == s.workers[w := to] && s'.history == s.history + [e] && e.worker == w
    requires WorkerInvariant(initial, s'.history, to, w)
    ensures forall v :: WorkerInvariant(initial, s'.history, s'.At(v), v)
  {
    forall v ensures WorkerInvariant(initial, s'.history, s'.At(v), v) {
      if v != w {
        assert s'.At(v) == s.At(v);
        OthersUndisturbed(initial, s.history, e, s.At(v), v);
      }
    }
  }

  /** A step with an event that changes no record. */
  lemma EventStep(initial: Store, s: System, s': System, w: nat, to: Worker, e: Event)
    requires Invariant(initial, s) && s' == s.Move(w, to, [e]) && e.worker == w && !e.Effect?
    requires Follows(ProgressOf(s.history, w), e) && LossesHaveCauses(initial, s.history + [e])
    requires WorkerInvariant(initial, s.history + [e], to, w)
    ensures Invariant(initial, s')
  {
    Append(s.history, e);
    AppendAnswer(initial, s.history, e);
    assert Effects(s.history) + [] == Effects(s.history);
    WorkersAfterEvent(initial, s, s', w, to, e);
  }

  /** The step at which a signal takes effect is the indivisible transition on the store it finds. */
  lemma EffectStep(initial: Store, s: System, s': System, w: nat, op: Op, r: Result<Action>)
    requires Invariant(initial, s) && ProgressOf(s.history, w).Started? && ProgressOf(s.history, w).op == op
    requires s' == s.(store := s'.store).Move(w, Returning(op, r, true), [Effect(w, op, r)])
    requires (s'.store, r) == Atomic(s.store, op.env, op.now)
    ensures Invariant(initial, s')
  {
    var e := Effect(w, op, r);
    Append(s.history, e);
    AppendAnswer(initial, s.history, e);
    AfterAppend(initial, Effects(s.history), op);
    CausesPersist(initial, s.history, e);
    AtomicWithoutRetry(s.store, op.env, op.now);
    WorkersAfterEvent(initial, s, s', w, Returning(op, r, true), e);
  }

  lemma ReadKeepsInvariant(initial: Store, s: System, w: nat)
    requires Invariant(initial, s) && s.At(w).Reading?
    ensures Invariant(initial, Read(s, w))
  {
    assert WorkerInvariant(initial, s.history, s.At(w), w);
    var op := s.At(w).op;
    if op.env.signal.CallInit? && op.env.sender == op.env.recipient {
      EffectStep(initial, s, Read(s, w), w, op, Err(VoipCall("caller and callee device_id must differ")));
    } else if op.env.signal.CallInit? {
      ReadHere(s);
      QuietStep(initial, s, Read(s, w), w, Read(s, w).At(w));
    } else {
      var d := Decide(op.env, op.now, Find(s.store, op.env.callId));
      AtomicByDecision(s.store, op.env, op.now, d);
      if d.Refuse? {
        EffectStep(initial, s, Read(s, w), w, op, Err(d.error));
      } else {
        ReadHere(s);
        QuietStep(initial, s, Read(s, w), w, Read(s, w).At(w));
      }
    }
  }

  lemma ReadHere(s: System)
    ensures s.history[..|s.history|] == s.history
  {
  }

  /**
   The heart of the matter: a successful exchange compares the whole record, and the decision
   depends on nothing else, so it is the right decision for the store it succeeds on, however
   often the record has changed and changed back since it was read.
   */
  lemma ExchangeKeepsInvariant(initial: Store, s: System, w: nat)
    requires Invariant(initial, s) && s.At(w).Swapping?
    ensures Invariant(initial, Exchange(s, w))
  {
    assert WorkerInvariant(initial, s.history, s.At(w), w);
    var Swapping(op, tries, since, current, next, outcome) := s.At(w);
    var s' := Exchange(s, w);
    if Find(s.store, op.env.callId) == current {
      if !op.env.signal.CallInit? {
        AtomicByDecision(s.store, op.env, op.now, Decide(op.env, op.now, current));
      }
      EffectStep(initial, s, s', w, op, outcome);
    } else if op.env.signal.CallInit? {
      EffectStep(initial, s, s', w, op, Err(VoipCall("call_id already exists")));
    } else {
      LostStep(initial, s, s', w, op, tries, since, s'.At(w));
    }
  }

  lemma LostStep(initial: Store, s: System, s': System, w: nat, op: Op, tries: nat, since: nat, to: Worker)
    requires Invariant(initial, s) && s' == s.Move(w, to, [Lost(w, op, tries + 1, since)])
    requires ProgressOf(s.history, w) == Started(op, tries) && Silent(s.history, since, w)
    requires Find(s.store, op.env.callId) != Find(StoreAt(initial, s.history, since), op.env.callId)
    requires if tries + 1 < 8 then to == Reading(op, tries + 1)
             else tries + 1 == 8 && to == Returning(op, Err(InvalidState(RETRY)), false)
    ensures Invariant(initial, s')
  {
    var e := Lost(w, op, tries + 1, since);
    LossHasCause(initial, s.history, w, op, tries + 1, since);
    Append(s.history, e);
    EventStep(initial, s, s', w, to, e);
  }

  lemma StepKeepsInvariant(initial: Store, s: System, s': System, w: nat)
    requires Invariant(initial, s) && Step(s, s', w)
    ensures Invariant(initial, s')
  {
    assert WorkerInvariant(initial, s.history, s.At(w), w);
    match s.At(w) {
      case Idle =>
        var op :| s' == Begin(s, w, op);
        Append(s.history, Start(w, op));
        CausesPersist(initial, s.history, Start(w, op));
        EventStep(initial, s, s', w, Reading(op, 0), Start(w, op));
      case Reading(op, _) =>
        if s' == Read(s, w) { ReadKeepsInvariant(initial, s, w); }
        else { QuietStep(initial, s, s', w, s'.At(w)); }
      case Swapping(op, _, _, _, _, _) =>
        if s' == Exchange(s, w) { ExchangeKeepsInvariant(initial, s, w); }
        else { QuietStep(initial, s, s', w, s'.At(w)); }
      case Returning(_, result, _) =>
        Append(s.history, Return(w, result));
        CausesPersist(initial, s.history, Return(w, result));
        EventStep(initial, s, s', w, Idle, Return(w, result));
    }
  }

  lemma {:induction false} RunKeepsInvariant(states: seq<System>, schedule: seq<nat>, n: nat)
    requires Run(states, schedule) && n <= |schedule|
    ensures Invariant(states[0].store, states[n])
  {
    if n == 0 {
      assert states[0].history == [];
    } else {
      RunKeepsInvariant(states, schedule, n - 1);
      StepKeepsInvariant(states[0].store, states[n - 1], states[n], schedule[n - 1]);
    }
  }

  /**
   Linearizability.  In every run of any number of workers, at every moment: the store is what the
   signals that have taken effect make of the initial store one after another; each of them was
   answered as that sequence of indivisible transitions answers it; and each took effect between
   the start and the return of its call, which returns exactly that answer.  Calls that return
   without having taken effect have changed nothing and report that they gave up.
   */
  lemma Linearizable(states: seq<System>, schedule: seq<nat>, n: nat)
    requires Run(states, schedule) && n <= |schedule|
    ensures var h := states[n].history;
      && states[n].store == After(states[0].store, Effects(h))
      && AnswersAreAtomic(states[0].store, h)
      && WellOrdered(h)
  {
    RunKeepsInvariant(states, schedule, n);
  }

  // ----- Progress -----

  /** The lost exchanges of `w` in its current call. */
  function LossesOf(h: seq<Event>, w: nat): seq<nat> {
    if h == [] || (h[|h| - 1].worker == w && h[|h| - 1].Start?) then []
    else
      var front, last := h[..|h| - 1], h[|h| - 1];
      LossesOf(front, w) + if last.worker == w && last.Lost? then [|h| - 1] else []
  }

  lemma {:induction false} LossesCounted(h: seq<Event>, w: nat)
    requires WellOrdered(h) && ProgressOf(h, w).Started?
    ensures |LossesOf(h, w)| == ProgressOf(h, w).losses
    ensures forall k | 0 <= k < |LossesOf(h, w)| :: LossesOf(h, w)[k] < |h| && IsLossOf(h, LossesOf(h, w)[k], w, ProgressOf(h, w).op)
    ensures forall k, m | 0 <= k < m < |LossesOf(h, w)| :: LossesOf(h, w)[k] < LossesOf(h, w)[m]
  {
    var front, last := h[..|h| - 1], h[|h| - 1];
    if last.worker != w || last.Lost? {
      LossesCounted(front, w);
    }
  }

  ghost predicate IsLossOf(h: seq<Event>, i: nat, w: nat, op: Op)
    requires i < |h|
  {
    h[i].Lost? && h[i].worker == w && h[i].op == op
  }

  /**
   A call that is about to report contention, in any run, has lost eight exchanges one after the other,
   and before each of them, since its own read, another worker had changed the record.
   */
  lemma GivingUpNeedsContention(states: seq<System>, schedule: seq<nat>, n: nat, w: nat)
    requires Run(states, schedule) && n <= |schedule|
    requires states[n].At(w).Returning? && states[n].At(w).result == Err(InvalidState(RETRY))
    ensures var h, losses := states[n].history, LossesOf(states[n].history, w);
      && |losses| == 8 && (forall k, m | 0 <= k < m < 8 :: losses[k] < losses[m])
      && forall k | 0 <= k < 8 ::
           losses[k] < |h| && IsLossOf(h, losses[k], w, states[n].At(w).op) && HasCause(states[0].store, h, losses[k])
  {
    RunKeepsInvariant(states, schedule, n);
    assert WorkerInvariant(states[0].store, states[n].history, states[n].At(w), w);
    LossesCounted(states[n].history, w);
  }

  /** Started on an empty store, concurrent workers forward every call's signals in grammatical order. */
  lemma ConcurrentRunsConverse(states: seq<System>, schedule: seq<nat>, n: nat, id: Id)
    requires Run(states, schedule) && n <= |schedule| && states[0].store == map[]
    ensures Conversation(Forwarded(Effects(states[n].history), id))
    ensures id in states[n].store ==>
      var call := states[n].store[id];
      GoodCall(id, call) && call.rekeyGeneration == Acks(Forwarded(Effects(states[n].history), id))
  {
    Linearizable(states, schedule, n);
    ForwardedSignalsConverse(Effects(states[n].history), id);
  }
}

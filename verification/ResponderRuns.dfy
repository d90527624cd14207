/**
 Runs of one identity: handshakes with every fate, replenishments and in-process restores, in any
 order. A prekey serves at most one handshake, and an init is accepted again only after a full turn
 of the fingerprint cache.
 */
module ResponderRuns {
  import opened Arithmetic
  import opened Outcomes
  import opened PreKeys
  import opened ReplayCache
  import opened ReplayRuns
  import opened Reservations
  import opened Responder

  /** How a handshake ended: no lasting effect, undone by the guard, or accepted. */
  datatype Fate = TurnedAway | Undone | Done

  datatype Event =
    | Attempt(init: Init, fate: Fate)
    | Replenish(ids: seq<nat>)
    | Restore(remaining: set<nat>, order: seq<Fingerprint>)

  /** When an event can happen, as the contracts of the identity's methods state it. */
  ghost predicate Enabled(s: Snapshot, e: Event) {
    match e
    case Attempt(init, fate) =>
      fate != TurnedAway ==> Admits(s.cache, init.fingerprint) && Passes(s.keys, init)
    case Replenish(ids) =>
      NoDuplicates(ids) && forall id | id in ids :: id !in IdSet(s.keys) && OPK_ID_OFFSET <= id < 0x1_0000_0000
    case Restore(_, order) =>
      |order| <= MAX_SEEN_HANDSHAKE_INITS && forall f | f in order :: |f| == HMAC_BYTES
  }

  ghost function Next(s: Snapshot, e: Event): Snapshot {
    match e
    case Attempt(init, TurnedAway) => s
    case Attempt(init, Undone) => Spent(s, init)
    case Attempt(init, Done) => Accepted(s, init)
    case Replenish(ids) => s.(keys := s.keys + NewKeys(ids, s.serial), serial := s.serial + |ids|)
    case Restore(ids, order) => s.(cache := s.cache.(order := order), keys := Retained(s.keys, ids))
  }

  ghost function Reached(s: Snapshot, events: seq<Event>): Snapshot {
    if events == [] then s else Next(Reached(s, events[..|events| - 1]), events[|events| - 1])
  }

  ghost predicate Run(s: Snapshot, events: seq<Event>) {
    forall i | 0 <= i < |events| :: Enabled(Reached(s, events[..i]), events[i])
  }

  // ----- The identity's methods make such steps -----

  method RespondStep(identity: IdentityKeys, init: Init, guard: Guard?, net: Service)
    returns (r: Result<Option<Secret>>, ghost e: Event)
    requires identity.Valid()
    modifies identity, identity.cache, guard
    ensures identity.Valid()
    ensures e.Attempt? && e.init == init && (r.Ok? <==> e.fate == Done)
    ensures Enabled(old(identity.State()), e) && identity.State() == Next(old(identity.State()), e)
    ensures r.Ok? ==> (match r.value case None => [] case Some(secret) => [secret]) == ServedBy(old(identity.keys), e)
  {
    ghost var before := identity.State();
    r := identity.Respond(init, guard, net);
    if r.Ok? {
      e := Attempt(init, Done);
      ServedIsFound(before.keys, init.preKeyId, r.value);
    } else if identity.State() == before {
      e := Attempt(init, TurnedAway);
    } else {
      e := Attempt(init, Undone);
    }
  }

  lemma ServedIsFound(keys: seq<PreKey>, preKeyId: Option<nat>, served: Option<Secret>)
    requires Proper(keys) && Serves(keys, preKeyId, served)
    ensures preKeyId.Some? ==>
              var p := Position(keys, preKeyId.value);
              p.Some? && served == Some(keys[p.value].secret)
  {
    if preKeyId.Some? {
      var i :| 0 <= i < |keys| && keys[i] == PreKey(preKeyId.value, served.value);
      assert keys[i] in keys;
    }
  }

  method ReplenishStep(identity: IdentityKeys, count: nat, draw: Draws) returns (r: Result<seq<PreKey>>)
    requires identity.Valid()
    modifies identity
    ensures identity.Valid()
    ensures r.Ok? ==> Enabled(old(identity.State()), Event.Replenish(Ids(r.value)))
                      && identity.State() == Next(old(identity.State()), Event.Replenish(Ids(r.value)))
    ensures r.Err? ==> identity.State() == old(identity.State())
  {
    ghost var before := identity.State();
    r := identity.Replenish(count, draw);
    if r.Ok? {
      ChosenAreDistinct(draw, IdSet(before.keys), Ids(r.value));
    }
  }

  lemma RunPrefix(s: Snapshot, events: seq<Event>)
    requires Run(s, events) && events != []
    ensures Run(s, events[..|events| - 1])
    ensures Enabled(Reached(s, events[..|events| - 1]), events[|events| - 1])
  {
    var front := events[..|events| - 1];
    forall i | 0 <= i < |front| ensures Enabled(Reached(s, front[..i]), front[i]) {
      assert front[..i] == events[..i];
    }
  }

  // ----- Prekeys -----

  /** The secret of the key that an accepted handshake asked for. */
  ghost function ServedBy(keys: seq<PreKey>, e: Event): seq<Secret> {
    if e.Attempt? && e.fate == Done && e.init.preKeyId.Some? then
      match Position(keys, e.init.preKeyId.value)
      case None => []
      case Some(p) => [keys[p].secret]
    else []
  }

  /** The secrets that served accepted handshakes, in order. */
  ghost function Served(s: Snapshot, events: seq<Event>): seq<Secret> {
    if events == [] then []
    else
      var before := events[..|events| - 1];
      Served(s, before) + ServedBy(Reached(s, before).keys, events[|events| - 1])
  }

  /** The pool is proper, and no pooled or future key has served. */
  ghost predicate OneTime(s: Snapshot, served: seq<Secret>) {
    && Proper(s.keys) && NoDuplicates(served)
    && (forall k | k in s.keys :: k.secret !in served)
    && (forall k | k in s.keys && k.secret.Random? :: k.secret.serial < s.serial)
    && (forall x | x in served && x.Random? :: x.serial < s.serial)
  }

  lemma OtherIdOtherSecret(keys: seq<PreKey>, p: nat, k: PreKey)
    requires Proper(keys) && p < |keys| && k in keys && k.id != keys[p].id
    ensures k.secret != keys[p].secret
  {
    var i :| 0 <= i < |keys| && keys[i] == k;
  }

  lemma ConsumedKeepsOneTime(s: Snapshot, served: seq<Secret>, id: nat)
    requires OneTime(s, served)
    ensures OneTime(s.(keys := Consumed(s.keys, Some(id))), served)
  {
    RetainedContents(s.keys, IdSet(s.keys) - {id});
  }

  lemma ServingKeepsOneTime(s: Snapshot, served: seq<Secret>, p: nat)
    requires OneTime(s, served) && p < |s.keys|
    ensures OneTime(s.(keys := Consumed(s.keys, Some(s.keys[p].id))), served + [s.keys[p].secret])
  {
    var key := s.keys[p];
    var left := Consumed(s.keys, Some(key.id));
    ConsumedKeepsOneTime(s, served, key.id);
    RetainedContents(s.keys, IdSet(s.keys) - {key.id});
    AppendDistinct(served, key.secret);
    forall k | k in left ensures k.secret !in served + [key.secret] {
      OtherIdOtherSecret(s.keys, p, k);
    }
  }

  lemma StepKeepsOneTime(s: Snapshot, served: seq<Secret>, e: Event)
    requires OneTime(s, served) && Enabled(s, e)
    ensures OneTime(Next(s, e), served + ServedBy(s.keys, e))
  {
    match e
    case Attempt(init, fate) =>
      if init.preKeyId.Some? {
        var p := Position(s.keys, init.preKeyId.value);
        ConsumedKeepsOneTime(s, served, init.preKeyId.value);
        if p.Some? {
          ServingKeepsOneTime(s, served, p.value);
        }
      }
      assert served + [] == served;
    case Replenish(ids) =>
      AppendedBatch(s.keys, ids, s.serial);
      assert served + [] == served;
    case Restore(ids, order) =>
      RetainedContents(s.keys, ids);
      assert served + [] == served;
  }

  /**
   In every run the pooled ids stay distinct and at least 2, and no key serves two accepted
   handshakes.
   */
  lemma {:induction false} EachPreKeyServesOnce(s: Snapshot, events: seq<Event>)
    requires OneTime(s, []) && Run(s, events)
    ensures OneTime(Reached(s, events), Served(s, events))
  {
    if events != [] {
      RunPrefix(s, events);
      var before := events[..|events| - 1];
      EachPreKeyServesOnce(s, before);
      StepKeepsOneTime(Reached(s, before), Served(s, before), events[|events| - 1]);
    }
  }

  // ----- Fingerprints -----

  /** The fingerprints other than `f` that handshakes of a run have put into the queue. */
  ghost function OthersSeen(events: seq<Event>, f: Fingerprint): set<Fingerprint> {
    if events == [] then {}
    else
      var earlier, last := OthersSeen(events[..|events| - 1], f), events[|events| - 1];
      if Queues(last) && last.init.fingerprint != f then earlier + {last.init.fingerprint} else earlier
  }

  ghost predicate Queues(e: Event) {
    e.Attempt? && e.fate != TurnedAway
  }

  lemma NextKeepsSound(s: Snapshot, e: Event)
    requires Sound(s.cache) && Enabled(s, e) && !e.Restore?
    ensures Sound(Next(s, e).cache)
  {
    if Queues(e) {
      StepKeepsSound(s.cache, Remember(e.init.fingerprint));
      StepKeepsSound(Remembered(s.cache, e.init.fingerprint), Forget(e.init.fingerprint));
    }
  }

  lemma {:induction false} ReachedKeepsSound(s: Snapshot, events: seq<Event>)
    requires Sound(s.cache) && Run(s, events)
    requires forall e | e in events :: !e.Restore?
    ensures Sound(Reached(s, events).cache)
  {
    if events != [] {
      RunPrefix(s, events);
      ReachedKeepsSound(s, events[..|events| - 1]);
      NextKeepsSound(Reached(s, events[..|events| - 1]), events[|events| - 1]);
    }
  }

  lemma WaitsThroughEvent(s: Snapshot, p: nat, f: Fingerprint, others: set<Fingerprint>, e: Event) returns (q: nat)
    requires Sound(s.cache) && Enabled(s, e) && !e.Restore? && Waits(s.cache.order, p, f, others)
    requires Queues(e) ==> |others + {e.init.fingerprint}| < MAX_SEEN_HANDSHAKE_INITS
    ensures Queues(e) ==> e.init.fingerprint != f
    ensures Waits(Next(s, e).cache.order, q, f, if Queues(e) then others + {e.init.fingerprint} else others)
  {
    q := p;
    if Queues(e) {
      var g := e.init.fingerprint;
      assert s.cache.order[p] == f;
      q := WaitsThroughStep(s.cache, p, f, others, Remember(g));
      if e.fate == Undone {
        StepKeepsSound(s.cache, Remember(g));
        q := WaitsThroughStep(Remembered(s.cache, g), q, f, others + {g}, Forget(g));
      }
    }
  }

  lemma {:induction false} StaysQueued(s: Snapshot, f: Fingerprint, p: nat, events: seq<Event>) returns (q: nat)
    requires Sound(s.cache) && Run(s, events) && Waits(s.cache.order, p, f, {})
    requires forall e | e in events :: !e.Restore?
    requires |OthersSeen(events, f)| < MAX_SEEN_HANDSHAKE_INITS
    ensures Waits(Reached(s, events).cache.order, q, f, OthersSeen(events, f))
  {
    q := p;
    if events != [] {
      var before, last := events[..|events| - 1], events[|events| - 1];
      RunPrefix(s, events);
      SubsetSize(OthersSeen(before, f), OthersSeen(events, f));
      q := StaysQueued(s, f, p, before);
      ReachedKeepsSound(s, before);
      var t := Reached(s, before);
      assert t.cache.order[q] == f;
      q := WaitsThroughEvent(t, q, f, OthersSeen(before, f), last);
    }
  }

  /**
   Between two acceptances of the same fingerprint, handshakes with as many other fingerprints as
   the cache holds have been queued.
   */
  lemma AcceptedAgainOnlyAfterFullTurn(s: Snapshot, first: Init, events: seq<Event>, second: Init)
    requires Sound(s.cache) && Enabled(s, Attempt(first, Done))
    requires forall e | e in events :: !e.Restore?
    requires var t := Next(s, Attempt(first, Done));
             Run(t, events) && Enabled(Reached(t, events), Attempt(second, Done))
    requires second.fingerprint == first.fingerprint
    ensures |OthersSeen(events, first.fingerprint)| >= MAX_SEEN_HANDSHAKE_INITS
  {
    var f := first.fingerprint;
    var t := Next(s, Attempt(first, Done));
    NextKeepsSound(s, Attempt(first, Done));
    if |OthersSeen(events, f)| < MAX_SEEN_HANDSHAKE_INITS {
      var _ := StaysQueued(t, f, |t.cache.order| - 1, events);
    }
  }
}

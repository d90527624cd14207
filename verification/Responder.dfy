/**
 The responder's side of replay protection: an identity with its prekey pool and its fingerprint
 cache, and the order in which one handshake reserves, checks, consumes and commits. What the
 cryptographic checks find is part of the incoming message; Handshake models the derivations.
 */
module Responder {
  import opened Arithmetic
  import opened Outcomes
  import opened PreKeys
  import opened ReplayCache
  import opened Reservations

  /**
   An init as the responder sees it: `wellFormed` for the checks before the prekey is looked up,
   `confirmed` for the derivations and the initiator's confirmation after it.
   */
  datatype Init = Init(fingerprint: Fingerprint, preKeyId: Option<nat>, wellFormed: bool, confirmed: bool)

  datatype Snapshot = Snapshot(cache: CacheState, keys: seq<PreKey>, serial: nat)

  /** The key an init asks for is in the pool. */
  ghost predicate Available(keys: seq<PreKey>, preKeyId: Option<nat>) {
    preKeyId.Some? ==> preKeyId.value in IdSet(keys)
  }

  ghost function Consumed(keys: seq<PreKey>, preKeyId: Option<nat>): seq<PreKey> {
    match preKeyId
    case None => keys
    case Some(id) => Retained(keys, IdSet(keys) - {id})
  }

  /** A handshake that went through: its key is gone and its fingerprint remembered. */
  ghost function Accepted(s: Snapshot, init: Init): Snapshot {
    Snapshot(Remembered(s.cache, init.fingerprint), Consumed(s.keys, init.preKeyId), s.serial)
  }

  /** A handshake whose commit the guard refused: its key is gone all the same. */
  ghost function Spent(s: Snapshot, init: Init): Snapshot {
    Snapshot(Forgotten(Remembered(s.cache, init.fingerprint), init.fingerprint), Consumed(s.keys, init.preKeyId), s.serial)
  }

  /** The cache would grant a reservation. */
  ghost predicate Admits(s: CacheState, f: Fingerprint) {
    |f| == HMAC_BYTES && Unseen(s, f) && |s.inflight| < MAX_INFLIGHT_HANDSHAKE_INITS
  }

  ghost predicate Passes(keys: seq<PreKey>, init: Init) {
    init.wellFormed && Available(keys, init.preKeyId) && init.confirmed
  }

  /**
   A failed handshake that the guard had granted is released there: at once if the cache knows the
   fingerprint, by the destructor if a check fails, by the rollback or the destructor if the commit
   fails; never if the cache fails to answer.
   */
  ghost predicate TakenBack(s: CacheState, keys: seq<PreKey>, init: Init, net: Service) {
    if Admits(s, init.fingerprint) then net.release || (Passes(keys, init) && net.retry)
    else |init.fingerprint| == HMAC_BYTES && !Unseen(s, init.fingerprint) && net.release
  }

  /** The secret served is that of the key asked for. */
  ghost predicate Serves(keys: seq<PreKey>, preKeyId: Option<nat>, served: Option<Secret>) {
    match preKeyId
    case None => served.None?
    case Some(id) => served.Some? && PreKey(id, served.value) in keys
  }

  /** The guard with a durable marker in place of any reservation. */
  ghost function Settled(g: GuardState, f: Fingerprint): GuardState {
    g.(reserved := g.reserved - {f}, committed := g.committed + {f})
  }

  class IdentityKeys {
    const cache: Cache
    var keys: seq<PreKey>
    var serial: nat

    ghost function State(): Snapshot
      reads this, cache
    {
      Snapshot(cache.State(), keys, serial)
    }

    ghost predicate Valid()
      reads this, cache
    {
      && cache.Valid() && Proper(keys)
      && forall k | k in keys && k.secret.Random? :: k.secret.serial < serial
    }

    constructor (keys: seq<PreKey>, serial: nat)
      requires Proper(keys)
      requires forall k | k in keys && k.secret.Random? :: k.secret.serial < serial
      ensures Valid() && State() == Snapshot(EMPTY, keys, serial) && fresh(cache)
    {
      this.keys, this.serial := keys, serial;
      cache := new Cache();
    }

    method FindSecret(id: nat) returns (r: Result<Secret>)
      ensures r.Ok? <==> id in IdSet(keys)
      ensures r.Ok? ==> PreKey(id, r.value) in keys
    {
      var p := Position(keys, id);
      if p.None? {
        return Err(Handshake("Requested OPK not found"));
      }
      return Ok(keys[p.value].secret);
    }

    method Consume(id: nat) returns (r: Result<()>)
      requires Valid()
      modifies `keys
      ensures Valid()
      ensures r.Ok? <==> id in old(IdSet(keys))
      ensures keys == if r.Ok? then Consumed(old(keys), Some(id)) else old(keys)
    {
      var p := Position(keys, id);
      if p.None? {
        return Err(InvalidInput("OPK with requested ID not found"));
      }
      RemovalRetainsOthers(keys, p.value);
      RetainedContents(keys, IdSet(keys) - {id});
      keys := keys[..p.value] + keys[p.value + 1..];
      return Ok(());
    }

    /** All or nothing; the new ids avoid those still pooled. */
    method Replenish(count: nat, draw: Draws) returns (r: Result<seq<PreKey>>)
      requires Valid()
      modifies `keys, `serial
      ensures Valid()
      ensures r.Ok? ==>
              && |r.value| == count && Chosen(draw, old(IdSet(keys)), Ids(r.value))
              && (forall id | id in Ids(r.value) :: OPK_ID_OFFSET <= id < 0x1_0000_0000)
              && r.value == NewKeys(Ids(r.value), old(serial))
              && State() == old(State()).(keys := old(keys) + r.value, serial := old(serial) + count)
      ensures r.Err? ==> (exists ids :: Stuck(draw, old(IdSet(keys)), count, ids)) && State() == old(State())
    {
      r := GenerateExcluding(count, IdSet(keys), draw, serial);
      if r.Ok? {
        ChosenAreDistinct(draw, IdSet(keys), Ids(r.value));
        AppendedBatch(keys, Ids(r.value), serial);
        keys := keys + r.value;
        serial := serial + count;
      }
    }

    /** The handshake once its fingerprint is reserved; every early exit drops the reservation. */
    method Proceed(init: Init, reservation: Reservation, net: Service) returns (r: Result<Option<Secret>>)
      requires Valid() && reservation.Held()
      requires reservation.cache == cache && reservation.fingerprint == init.fingerprint
      modifies this, cache, reservation, reservation.guard
      ensures Valid() && serial == old(serial)
      ensures r.Ok? <==> Passes(old(keys), init) && (reservation.guard == null || net.commit)
      ensures r.Ok? ==>
              && keys == Consumed(old(keys), init.preKeyId)
              && cache.State() == Remembered(old(cache.State()), init.fingerprint)
              && Serves(old(keys), init.preKeyId, r.value)
              && (reservation.guard != null ==>
                    reservation.guard.State() == Settled(old(reservation.guard.State()), init.fingerprint))
      ensures r.Err? && Passes(old(keys), init) ==>
              && keys == Consumed(old(keys), init.preKeyId)
              && cache.State() == Forgotten(Remembered(old(cache.State()), init.fingerprint), init.fingerprint)
      ensures r.Err? && !Passes(old(keys), init) ==>
              keys == old(keys) && cache.State() == Released(old(cache.State()), init.fingerprint)
      ensures r.Err? && reservation.guard != null ==>
              reservation.guard.State() ==
              GivenBack(old(reservation.guard.State()), init.fingerprint, net.release || (Passes(old(keys), init) && net.retry))
    {
      if !init.wellFormed {
        reservation.Drop(net.release);
        return Err(InvalidInput("HandshakeInit rejected"));
      }
      var secret: Option<Secret> := None;
      if init.preKeyId.Some? {
        var found := FindSecret(init.preKeyId.value);
        if found.Err? {
          reservation.Drop(net.release);
          return Err(found.error);
        }
        secret := Some(found.value);
      }
      if !init.confirmed {
        reservation.Drop(net.release);
        return Err(Handshake("Initiator key confirmation failed"));
      }
      if init.preKeyId.Some? {
        var _ := Consume(init.preKeyId.value);
      }
      var done := reservation.Commit(net);
      if done.Err? {
        return Err(done.error);
      }
      return Ok(secret);
    }

    /** One incoming handshake, from the reservation to the commit. */
    method Respond(init: Init, guard: Guard?, net: Service) returns (r: Result<Option<Secret>>)
      requires Valid()
      modifies this, cache, guard
      ensures Valid()
      ensures r.Ok? <==>
              && (guard != null ==> net.reserve && !old(guard.Knows(init.fingerprint)) && net.commit)
              && Admits(old(cache.State()), init.fingerprint) && Passes(old(keys), init)
      ensures r.Ok? ==>
              && State() == Accepted(old(State()), init)
              && Serves(old(keys), init.preKeyId, r.value)
              && (guard != null ==> guard.State() == Settled(old(guard.State()), init.fingerprint))
      // The pool and the cache change on a failure only if everything but the guard's commit succeeded.
      ensures r.Err? ==>
                if guard != null && net.reserve && !old(guard.Knows(init.fingerprint)) && !net.commit
                   && Admits(old(cache.State()), init.fingerprint) && Passes(old(keys), init)
                then State() == Spent(old(State()), init)
                else State() == old(State())
      // At the guard a failure leaves the state as it was, but for one release on record if the guard
      // had granted the reservation and took it back, and holding it if it was never taken back.
      ensures r.Err? && guard != null ==>
                guard.State() ==
                if !net.reserve || old(guard.Knows(init.fingerprint)) then old(guard.State())
                else if TakenBack(old(cache.State()), old(keys), init, net)
                then old(guard.State()).(releases := old(guard.releases) + [init.fingerprint])
                else old(guard.State()).(reserved := old(guard.reserved) + {init.fingerprint})
    {
      var reserved := Reservation.Reserve(cache, guard, init.fingerprint, net);
      if reserved.Err? {
        return Err(reserved.error);
      }
      ReservedThen(old(cache.State()), init.fingerprint);
      assert guard != null ==>
          old(guard.reserved) + {init.fingerprint} - {init.fingerprint} == old(guard.reserved) == old(guard.reserved) - {init.fingerprint};
      r := Proceed(init, reserved.value, net);
    }
  }

  /** Holding a reservation first makes no difference to what comes after it. */
  lemma ReservedThen(s: CacheState, f: Fingerprint)
    requires Unseen(s, f) && |f| == HMAC_BYTES
    ensures var held := s.(inflight := s.inflight + {f});
            Released(held, f) == s && Remembered(held, f) == Remembered(s, f)
  {
    assert s.inflight + {f} - {f} == s.inflight == s.inflight - {f};
  }

  lemma AppendedBatch(keys: seq<PreKey>, ids: seq<nat>, serial: nat)
    requires Proper(keys) && NoDuplicates(ids)
    requires forall k | k in keys && k.secret.Random? :: k.secret.serial < serial
    requires forall id | id in ids :: id !in IdSet(keys) && OPK_ID_OFFSET <= id < 0x1_0000_0000
    ensures Proper(keys + NewKeys(ids, serial))
    ensures forall k | k in keys + NewKeys(ids, serial) && k.secret.Random? :: k.secret.serial < serial + |ids|
  {
    var batch := NewKeys(ids, serial);
    assert forall i | 0 <= i < |ids| :: batch[i].id == ids[i] && ids[i] in ids;
    assert forall k | k in keys :: k.id in IdSet(keys);
  }
}

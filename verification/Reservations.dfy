/**
 The two-party replay reservation of a handshake init: reserve at an external guard and in the local
 cache, then commit at both or roll both back, with the rollback left to the destructor on early
 exits. The guard is a remote service, so every call on it may fail.
 */
module Reservations {
  import opened Arithmetic
  import opened Outcomes
  import opened ReplayCache

  /** What the calls on the guard meet during one reservation: true where the service answers. */
  datatype Service = Service(reserve: bool, commit: bool, release: bool, retry: bool)

  const UNAVAILABLE: ProtocolError := Generic("Replay guard unavailable")

  datatype GuardState = GuardState(reserved: set<Fingerprint>, committed: set<Fingerprint>, releases: seq<Fingerprint>)

  class Guard {
    var reserved: set<Fingerprint>
    var committed: set<Fingerprint>
    /** Every release the guard has carried out. */
    var releases: seq<Fingerprint>

    ghost function State(): GuardState
      reads this
    {
      GuardState(reserved, committed, releases)
    }

    constructor ()
      ensures State() == GuardState({}, {}, [])
    {
      reserved, committed, releases := {}, {}, [];
    }

    predicate Knows(f: Fingerprint)
      reads this
    {
      f in reserved || f in committed
    }

    method Reserve(f: Fingerprint, up: bool) returns (r: Result<bool>)
      modifies this
      ensures r == if up then Ok(!old(Knows(f))) else Err(UNAVAILABLE)
      ensures State() == if r == Ok(true) then old(State()).(reserved := old(reserved) + {f}) else old(State())
    {
      if !up {
        return Err(UNAVAILABLE);
      }
      if Knows(f) {
        return Ok(false);
      }
      reserved := reserved + {f};
      return Ok(true);
    }

    method Commit(f: Fingerprint, up: bool) returns (r: Result<()>)
      modifies this
      ensures r == if up then Ok(()) else Err(UNAVAILABLE)
      ensures State() == if up then GuardState(old(reserved) - {f}, old(committed) + {f}, old(releases)) else old(State())
    {
      if !up {
        return Err(UNAVAILABLE);
      }
      reserved, committed := reserved - {f}, committed + {f};
      return Ok(());
    }

    method Release(f: Fingerprint, up: bool) returns (r: Result<()>)
      modifies this
      ensures r == if up then Ok(()) else Err(UNAVAILABLE)
      ensures State() == if up then GuardState(old(reserved) - {f}, old(committed), old(releases) + [f]) else old(State())
    {
      if !up {
        return Err(UNAVAILABLE);
      }
      reserved, releases := reserved - {f}, releases + [f];
      return Ok(());
    }
  }

  /** The guard after a release of `f`, when one went through. */
  ghost function GivenBack(g: GuardState, f: Fingerprint, released: bool): GuardState {
    if released then GuardState(g.reserved - {f}, g.committed, g.releases + [f]) else g
  }

  /** The cache after giving up what was still held there: a remembered fingerprint is forgotten, a reserved one released. */
  ghost function GivenUp(s: CacheState, f: Fingerprint, reserved: bool, remembered: bool): CacheState {
    if remembered then Forgotten(s, f) else if reserved then Released(s, f) else s
  }

  /** The error a failed commit reports: a failed rollback step goes before the guard's own error. */
  function Reported(forgotten: Result<()>, released: Result<()>, refusal: ProtocolError): ProtocolError {
    if forgotten.Err? then forgotten.error else if released.Err? then released.error else refusal
  }

  /**
   What a commit the guard refuses does to the cache: the fingerprint is gone from both sets, and the
   others are untouched if and only if the queue had room; a full queue has lost its oldest entry.
   */
  lemma RefusedCommitCostsTheOldest(s: CacheState, f: Fingerprint)
    requires |s.order| <= MAX_SEEN_HANDSHAKE_INITS && f !in s.order && |f| == HMAC_BYTES
    ensures var t := Forgotten(Remembered(s, f), f);
            && Unseen(t, f)
            && t.inflight == s.inflight - {f}
            && t.order == (if |s.order| == MAX_SEEN_HANDSHAKE_INITS then s.order[1..] else s.order)
            && (t.order == s.order <==> |s.order| < MAX_SEEN_HANDSHAKE_INITS)
  {
    var kept := if |s.order| == MAX_SEEN_HANDSHAKE_INITS then s.order[1..] else s.order;
    assert Trim(s.order + [f]) == kept + [f];
    assert (kept + [f])[..|kept|] == kept;
    DropContents(kept, f);
    DropContents(kept + [f], f);
  }

  class Reservation {
    const cache: Cache
    const guard: Guard?
    const fingerprint: Fingerprint
    var localReserved: bool
    var localCommitted: bool
    var remoteReserved: bool
    var committed: bool

    /** The state `Reserve` leaves: held at the cache and, with a guard, at the guard. */
    ghost predicate Held()
      reads this, cache, guard
    {
      && cache.Valid() && |fingerprint| == HMAC_BYTES
      && localReserved && !localCommitted && !committed
      && fingerprint in cache.inflight
      && remoteReserved == (guard != null)
      && (guard != null ==> fingerprint in guard.reserved && fingerprint !in guard.committed)
    }

    constructor (cache: Cache, guard: Guard?, fingerprint: Fingerprint)
      ensures this.cache == cache && this.guard == guard && this.fingerprint == fingerprint
      ensures localReserved && !localCommitted && !committed && remoteReserved == (guard != null)
    {
      this.cache, this.guard, this.fingerprint := cache, guard, fingerprint;
      localReserved, localCommitted, committed := true, false, false;
      remoteReserved := guard != null;
    }

    static method ReserveAtGuard(guard: Guard, f: Fingerprint, up: bool) returns (r: Result<()>)
      modifies guard
      ensures r.Ok? <==> up && !old(guard.Knows(f))
      ensures r.Err? && up ==> r.error.ReplayAttack?
      ensures guard.State() == if r.Ok? then old(guard.State()).(reserved := old(guard.reserved) + {f}) else old(guard.State())
    {
      var isNew := guard.Reserve(f, up);
      if isNew.Err? {
        return Err(isNew.error);
      }
      if !isNew.value {
        return Err(ReplayAttack("Replay attack detected: duplicate HandshakeInit"));
      }
      return Ok(());
    }

    static method Reserve(cache: Cache, guard: Guard?, f: Fingerprint, net: Service) returns (r: Result<Reservation>)
      requires cache.Valid()
      modifies cache, guard
      ensures cache.Valid()
      ensures r.Ok? <==>
              && (guard != null ==> net.reserve && !old(guard.Knows(f)))
              && |f| == HMAC_BYTES && Unseen(old(cache.State()), f)
              && |old(cache.inflight)| < MAX_INFLIGHT_HANDSHAKE_INITS
      ensures r.Ok? ==>
              && fresh(r.value) && r.value.Held()
              && r.value.cache == cache && r.value.guard == guard && r.value.fingerprint == f
              && cache.State() == old(cache.State()).(inflight := old(cache.inflight) + {f})
              && (guard != null ==> guard.State() == old(guard.State()).(reserved := old(guard.reserved) + {f}))
      ensures r.Err? ==> cache.State() == old(cache.State())
      ensures |f| == HMAC_BYTES && (guard != null ==> net.reserve && net.release)
              && (!Unseen(old(cache.State()), f) || (guard != null && old(guard.Knows(f)))) ==>
                r.Err? && r.error.ReplayAttack?
      ensures |f| == HMAC_BYTES && guard != null && net.reserve && !net.release
              && !Unseen(old(cache.State()), f) && !old(guard.Knows(f)) ==>
                r == Err(UNAVAILABLE)
      // The reservation at the guard outlives the failure exactly when the guard granted it and the
      // cache failed before answering, or answered no while the release did not go through.
      ensures r.Err? && guard != null ==>
                if net.reserve && !old(guard.Knows(f))
                   && (|f| != HMAC_BYTES || Unseen(old(cache.State()), f) || !net.release)
                then guard.State() == old(guard.State()).(reserved := old(guard.reserved) + {f})
                else if net.reserve && !old(guard.Knows(f))
                then guard.State() == old(guard.State()).(releases := old(guard.releases) + [f])
                else guard.State() == old(guard.State())
    {
      if guard != null {
        var granted := ReserveAtGuard(guard, f, net.reserve);
        if granted.Err? {
          return Err(granted.error);
        }
      }
      var isNew := cache.Reserve(f);
      if isNew.Err? {
        return Err(isNew.error);
      }
      if !isNew.value {
        if guard != null {
          assert old(guard.reserved) + {f} - {f} == old(guard.reserved) by { assert f !in old(guard.reserved); }
          var released := guard.Release(f, net.release);
          if released.Err? {
            return Err(released.error);
          }
        }
        return Err(ReplayAttack("Replay attack detected: duplicate HandshakeInit"));
      }
      var reservation := new Reservation(cache, guard, f);
      return Ok(reservation);
    }

    /** The destructor: whatever the flags say is still held is given back. */
    method Drop(up: bool)
      requires cache.Valid() && |fingerprint| == HMAC_BYTES
      modifies cache, guard
      ensures cache.Valid()
      ensures cache.State() == GivenUp(old(cache.State()), fingerprint, !committed && localReserved, !committed && localCommitted)
      ensures guard != null ==>
                guard.State() == GivenBack(old(guard.State()), fingerprint, !committed && remoteReserved && up)
    {
      if committed {
        return;
      }
      if remoteReserved {
        if guard != null {
          var _ := guard.Release(fingerprint, up);
        }
      }
      if localCommitted {
        var _ := cache.Forget(fingerprint);
      } else if localReserved {
        cache.Release(fingerprint);
      }
    }

    method ForgetLocally() returns (r: Result<()>)
      requires cache.Valid() && |fingerprint| == HMAC_BYTES
      modifies `localCommitted, cache
      ensures cache.Valid() && cache.State() == Forgotten(old(cache.State()), fingerprint)
      ensures r.Ok? && !localCommitted
    {
      r := cache.Forget(fingerprint);
      if r.Ok? {
        localCommitted := false;
      }
    }

    method ReleaseAtGuard(up: bool) returns (r: Result<()>)
      requires guard != null && remoteReserved
      modifies `remoteReserved, guard
      ensures r == if up then Ok(()) else Err(UNAVAILABLE)
      ensures remoteReserved == !up && guard.State() == GivenBack(old(guard.State()), fingerprint, up)
    {
      r := guard.Release(fingerprint, up);
      if r.Ok? {
        remoteReserved := false;
      }
    }

    /** After the guard refused: forget locally, release remotely, and let the destructor retry. */
    method RollBack(refusal: ProtocolError, net: Service) returns (error: ProtocolError)
      requires cache.Valid() && |fingerprint| == HMAC_BYTES
      requires guard != null && remoteReserved && !localReserved && localCommitted && !committed
      modifies this, cache, guard
      ensures cache.Valid() && cache.State() == Forgotten(old(cache.State()), fingerprint)
      ensures guard.State() == GivenBack(old(guard.State()), fingerprint, net.release || net.retry)
      ensures error == if net.release then refusal else UNAVAILABLE
    {
      var forgotten := ForgetLocally();
      var released: Result<()> := Ok(());
      if remoteReserved {
        released := ReleaseAtGuard(net.release);
      }
      Drop(net.retry);
      return Reported(forgotten, released, refusal);
    }

    /**
     Consumes the reservation, so the destructor runs before it returns. Either the fingerprint is
     remembered locally and committed at the guard, or it is in neither local set and was released
     at the guard exactly once unless both attempts failed.
     */
    method Commit(net: Service) returns (r: Result<()>)
      requires Held()
      modifies this, cache, guard
      ensures cache.Valid()
      ensures r.Ok? <==> guard == null || net.commit
      ensures r.Ok? ==>
              && cache.State() == Remembered(old(cache.State()), fingerprint)
              && (guard != null ==>
                    guard.State() == GuardState(old(guard.reserved) - {fingerprint}, old(guard.committed) + {fingerprint}, old(guard.releases)))
      ensures r.Err? ==>
              && cache.State() == Forgotten(Remembered(old(cache.State()), fingerprint), fingerprint)
              && guard.State() == GivenBack(old(guard.State()), fingerprint, net.release || net.retry)
    {
      var _ := cache.Remember(fingerprint);
      localReserved, localCommitted := false, true;
      if guard != null {
        var done := guard.Commit(fingerprint, net.commit);
        if done.Err? {
          var error := RollBack(done.error, net);
          return Err(error);
        }
        remoteReserved := false;
      }
      committed := true;
      Drop(net.retry);
      return Ok(());
    }
  }

  // ----- Two cases -----

  /** Fingerprints told apart by their first entry. */
  function Numbered(k: nat): (f: Fingerprint)
    ensures |f| == HMAC_BYTES && f[0] == k
  {
    [k] + seq(HMAC_BYTES - 1, _ => 0)
  }

  function FirstNumbered(n: nat): (s: set<Fingerprint>)
    ensures |s| == n
    ensures forall k: nat | k >= n :: Numbered(k) !in s
  {
    if n == 0 then {}
    else
      assert Numbered(n - 1)[0] != Numbered(n)[0];
      FirstNumbered(n - 1) + {Numbered(n - 1)}
  }

  method FillFlight(cache: Cache)
    requires cache.Valid() && cache.State() == EMPTY
    modifies cache
    ensures cache.Valid() && cache.State() == CacheState(FirstNumbered(MAX_INFLIGHT_HANDSHAKE_INITS), [])
  {
    for k := 0 to MAX_INFLIGHT_HANDSHAKE_INITS
      invariant cache.Valid() && cache.State() == CacheState(FirstNumbered(k), [])
    {
      var _ := cache.Reserve(Numbered(k));
    }
  }

  /** With the in-flight set full and every service up, the guard is left holding a reservation nobody owns. */
  method ReservationOutlivesFullFlight() returns (r: Result<Reservation>, cache: Cache, guard: Guard)
    ensures fresh(cache) && fresh(guard)
    ensures r.Err? && Numbered(MAX_INFLIGHT_HANDSHAKE_INITS) in guard.reserved && guard.releases == []
    ensures cache.State() == CacheState(FirstNumbered(MAX_INFLIGHT_HANDSHAKE_INITS), [])
  {
    cache := new Cache();
    guard := new Guard();
    FillFlight(cache);
    r := Reservation.Reserve(cache, guard, Numbered(MAX_INFLIGHT_HANDSHAKE_INITS), Service(true, true, true, true));
  }

  function NumberedQueue(n: nat): (order: seq<Fingerprint>)
    ensures |order| == n && forall i | 0 <= i < n :: order[i] == Numbered(i)
  {
    seq(n, (i: nat) => Numbered(i))
  }

  lemma NumberedQueueHolds(n: nat)
    ensures NoDuplicates(NumberedQueue(n)) && Numbered(n) !in NumberedQueue(n)
    ensures forall g | g in NumberedQueue(n) :: |g| == HMAC_BYTES
  {
    var order := NumberedQueue(n);
    forall i, j | 0 <= i < j < |order| ensures order[i] != order[j] {
      assert order[i][0] != order[j][0];
    }
    forall g | g in order ensures g != Numbered(n) && |g| == HMAC_BYTES {
      var i :| 0 <= i < |order| && order[i] == g;
      assert g[0] != Numbered(n)[0];
    }
  }

  /** On a full queue a refused commit loses the fingerprint at its front. */
  lemma RefusedCommitOnFullQueue()
    ensures var f := Numbered(MAX_SEEN_HANDSHAKE_INITS);
            var s := CacheState({f}, NumberedQueue(MAX_SEEN_HANDSHAKE_INITS));
            Sound(s) && s.order[0] in s.order && s.order[0] !in Forgotten(Remembered(s, f), f).order
  {
    var f, order := Numbered(MAX_SEEN_HANDSHAKE_INITS), NumberedQueue(MAX_SEEN_HANDSHAKE_INITS);
    NumberedQueueHolds(MAX_SEEN_HANDSHAKE_INITS);
    RefusedCommitCostsTheOldest(CacheState({f}, order), f);
    SuffixDistinct(order, 1);
    assert order[..1] == [order[0]];
  }
}

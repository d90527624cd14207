/**
 Replay protection for handshake inits: a bounded first-in-first-out cache of fingerprints (a hash
 set indexing a queue) and a set of fingerprints whose handshakes are in flight.
 */
module ReplayCache {
  import opened Arithmetic
  import opened Outcomes
  import opened Sequences

  type Fingerprint = seq<nat>

  const HMAC_BYTES := 32
  const MAX_SEEN_HANDSHAKE_INITS := 16384
  const MAX_INFLIGHT_HANDSHAKE_INITS := 4096

  // ----- The abstract state -----

  /** What matters of the cache: who is in flight, and who was remembered in which order. */
  datatype CacheState = CacheState(inflight: set<Fingerprint>, order: seq<Fingerprint>)

  const EMPTY := CacheState({}, [])

  ghost predicate Sound(s: CacheState) {
    && NoDuplicates(s.order)
    && |s.order| <= MAX_SEEN_HANDSHAKE_INITS
    && |s.inflight| <= MAX_INFLIGHT_HANDSHAKE_INITS
    && (forall f | f in s.inflight :: f !in s.order)
    && (forall f | f in s.order :: |f| == HMAC_BYTES)
  }

  /** Neither remembered nor in flight. */
  predicate Unseen(s: CacheState, f: Fingerprint) {
    f !in s.order && f !in s.inflight
  }

  function Trim(order: seq<Fingerprint>): seq<Fingerprint> {
    if |order| <= MAX_SEEN_HANDSHAKE_INITS then order else order[|order| - MAX_SEEN_HANDSHAKE_INITS..]
  }

  function Reserved(s: CacheState, f: Fingerprint): CacheState {
    if |f| == HMAC_BYTES && Unseen(s, f) && |s.inflight| < MAX_INFLIGHT_HANDSHAKE_INITS
    then s.(inflight := s.inflight + {f}) else s
  }

  function Remembered(s: CacheState, f: Fingerprint): CacheState {
    if |f| != HMAC_BYTES then s
    else CacheState(s.inflight - {f}, if f in s.order then s.order else Trim(s.order + [f]))
  }

  function Released(s: CacheState, f: Fingerprint): CacheState {
    if |f| != HMAC_BYTES then s else s.(inflight := s.inflight - {f})
  }

  function Forgotten(s: CacheState, f: Fingerprint): CacheState {
    if |f| != HMAC_BYTES then s else CacheState(s.inflight - {f}, Drop(s.order, f))
  }

  function OtherThan(f: Fingerprint): Fingerprint -> bool {
    g => g != f
  }

  /** The queue without `f`. */
  function Drop(order: seq<Fingerprint>, f: Fingerprint): seq<Fingerprint> {
    Filter(order, OtherThan(f))
  }

  lemma {:induction false} DropContents(order: seq<Fingerprint>, f: Fingerprint)
    ensures |Drop(order, f)| <= |order|
    ensures forall g :: g in Drop(order, f) <==> g in order && g != f
    ensures NoDuplicates(order) ==> NoDuplicates(Drop(order, f))
    ensures f !in order ==> Drop(order, f) == order
  {
    FilterContents(order, OtherThan(f));
    if f !in order {
      FilterAll(order, OtherThan(f));
    }
    if order != [] {
      var front, last := order[..|order| - 1], order[|order| - 1];
      DropContents(front, f);
      assert order == front + [last];
      if NoDuplicates(order) {
        AppendDistinct(front, last);
        AppendDistinct(Drop(front, f), last);
      }
    }
  }

  lemma TrimKeeps(order: seq<Fingerprint>)
    ensures forall g | g in Trim(order) :: g in order
    ensures NoDuplicates(order) ==> NoDuplicates(Trim(order))
  {
    if |order| > MAX_SEEN_HANDSHAKE_INITS && NoDuplicates(order) {
      SuffixDistinct(order, |order| - MAX_SEEN_HANDSHAKE_INITS);
    }
  }

  /** Drop from the front of the queue, and from the set, until the cache is within its bound. */
  method EvictOldest(pushed: seq<Fingerprint>, index: set<Fingerprint>)
    returns (order: seq<Fingerprint>, recent: set<Fingerprint>)
    requires NoDuplicates(pushed) && index == Elements(pushed)
    ensures order == Trim(pushed) && NoDuplicates(order) && recent == Elements(order)
    ensures forall g | g in order :: g in pushed
  {
    order, recent := pushed, index;
    while |order| > MAX_SEEN_HANDSHAKE_INITS
      invariant |order| <= |pushed| && order == pushed[|pushed| - |order|..]
      invariant |order| >= MAX_SEEN_HANDSHAKE_INITS || order == pushed
      invariant NoDuplicates(order) && recent == Elements(order)
    {
      DropFirst(order);
      var oldest := order[0];
      order := order[1..];
      recent := recent - {oldest};
    }
    TrimKeeps(pushed);
  }

  // ----- The cache -----

  class Cache {
    var inflight: set<Fingerprint>
    var recent: set<Fingerprint>
    var order: seq<Fingerprint>

    ghost function State(): CacheState
      reads this
    {
      CacheState(inflight, order)
    }

    /** The hash set is exactly the contents of the queue. */
    ghost predicate Valid()
      reads this
    {
      Sound(State()) && recent == Elements(order)
    }

    constructor ()
      ensures Valid() && State() == EMPTY
    {
      inflight, recent, order := {}, {}, [];
    }

    method Reserve(f: Fingerprint) returns (r: Result<bool>)
      requires Valid()
      modifies this
      ensures Valid() && State() == Reserved(old(State()), f)
      ensures r.Err? <==> |f| != HMAC_BYTES || (Unseen(old(State()), f) && |old(inflight)| >= MAX_INFLIGHT_HANDSHAKE_INITS)
      ensures r.Ok? ==> r.value == Unseen(old(State()), f)
    {
      if |f| != HMAC_BYTES {
        return Err(InvalidInput("Invalid HandshakeInit fingerprint size"));
      }
      if f in recent || f in inflight {
        return Ok(false);
      }
      if |inflight| >= MAX_INFLIGHT_HANDSHAKE_INITS {
        return Err(InvalidState("Too many inflight HandshakeInit reservations"));
      }
      inflight := inflight + {f};
      return Ok(true);
    }

    method Remember(f: Fingerprint) returns (r: Result<()>)
      requires Valid()
      modifies this
      ensures Valid() && State() == Remembered(old(State()), f)
      ensures r.Ok? <==> |f| == HMAC_BYTES
    {
      if |f| != HMAC_BYTES {
        return Err(InvalidInput("Invalid HandshakeInit fingerprint size"));
      }
      SubsetSize(inflight - {f}, inflight);
      inflight := inflight - {f};
      if f in recent {
        return Ok(());
      }
      AppendDistinct(order, f);
      order, recent := EvictOldest(order + [f], recent + {f});
      return Ok(());
    }

    method Release(f: Fingerprint)
      requires Valid()
      modifies this
      ensures Valid() && State() == Released(old(State()), f)
    {
      if |f| != HMAC_BYTES {
        return;
      }
      SubsetSize(inflight - {f}, inflight);
      inflight := inflight - {f};
    }

    method Forget(f: Fingerprint) returns (r: Result<()>)
      requires Valid()
      modifies this
      ensures Valid() && State() == Forgotten(old(State()), f)
      ensures r.Ok? <==> |f| == HMAC_BYTES
    {
      if |f| != HMAC_BYTES {
        return Err(InvalidInput("Invalid HandshakeInit fingerprint size"));
      }
      SubsetSize(inflight - {f}, inflight);
      DropContents(order, f);
      inflight := inflight - {f};
      recent := recent - {f};
      order := Drop(order, f);
      return Ok(());
    }

    /** Replace the remembered fingerprints by a restored list, whatever it holds. */
    method Reload(fingerprints: seq<Fingerprint>)
      modifies `recent, `order
      ensures order == fingerprints && recent == Elements(fingerprints)
    {
      recent, order := {}, [];
      for i := 0 to |fingerprints|
        invariant order == fingerprints[..i] && recent == Elements(order)
      {
        AppendDistinct(order, fingerprints[i]);
        recent := recent + {fingerprints[i]};
        order := order + [fingerprints[i]];
      }
    }
  }
}

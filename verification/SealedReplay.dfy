/**
 Sealed anti-replay state: an identity's remaining prekey ids and remembered fingerprints, exported
 under authenticated encryption and restored into an identity rebuilt from its seed. The cipher and
 the message codec are parameters with their ideal properties.
 */
module SealedReplay {
  import opened Arithmetic
  import opened LittleEndian
  import opened Outcomes
  import opened PreKeys
  import opened ReplayCache
  import opened Responder
  import opened ResponderRuns

  const AES_KEY_BYTES := 32
  const AES_GCM_NONCE_BYTES := 12
  const HEADER := 1 + 8 + AES_GCM_NONCE_BYTES
  const IDENTITY_REPLAY_STATE_VERSION: Byte := 1

  datatype ReplayState = ReplayState(
    stateVersion: nat,
    identityPublic: Bytes,
    remainingIds: seq<nat>,
    fingerprints: seq<Fingerprint>,
    externalCounter: U64
  )

  /** Authenticated encryption and the codec of `ReplayState`, with the domain prefix of the associated data. */
  datatype Suite = Suite(
    seal: (Bytes, Bytes, Bytes, Bytes) -> Bytes,
    open: (Bytes, Bytes, Bytes, Bytes) -> Option<Bytes>,
    encode: ReplayState -> Bytes,
    decode: Bytes -> Option<ReplayState>,
    domain: Bytes
  )

  /** Sealing is not empty, opening undoes sealing, and the codec round-trips. */
  ghost predicate Works(suite: Suite) {
    && (forall key, nonce, text, aad ::
          && suite.seal(key, nonce, text, aad) != []
          && suite.open(key, nonce, suite.seal(key, nonce, text, aad), aad) == Some(text))
    && (forall state :: suite.decode(suite.encode(state)) == Some(state))
  }

  /** No sealed text opens under another key, nonce or associated data. */
  ghost predicate Authentic(suite: Suite) {
    forall key, nonce, text, aad, key', nonce', aad' ::
      suite.open(key', nonce', suite.seal(key, nonce, text, aad), aad').Some? ==>
        key' == key && nonce' == nonce && aad' == aad
  }

  function Aad(suite: Suite, counter: U64): Bytes {
    suite.domain + [IDENTITY_REPLAY_STATE_VERSION] + Encode(counter, 8)
  }

  ghost function Exported(s: Snapshot, publicKey: Bytes, counter: U64): ReplayState {
    ReplayState(IDENTITY_REPLAY_STATE_VERSION, publicKey, Ids(s.keys), s.cache.order, counter)
  }

  function Blob(suite: Suite, state: ReplayState, key: Bytes, counter: U64, nonce: Bytes): Bytes {
    [IDENTITY_REPLAY_STATE_VERSION] + Encode(counter, 8) + nonce + suite.seal(key, nonce, suite.encode(state), Aad(suite, counter))
  }

  method Export(identity: IdentityKeys, publicKey: Bytes, suite: Suite, key: Bytes, counter: U64, nonce: Bytes)
    returns (r: Result<Bytes>)
    requires |nonce| == AES_GCM_NONCE_BYTES
    ensures r.Ok? <==> |key| == AES_KEY_BYTES
    ensures r.Ok? ==> r.value == Blob(suite, Exported(identity.State(), publicKey, counter), key, counter, nonce)
  {
    if |key| != AES_KEY_BYTES {
      return Err(InvalidInput("Seal key must be 32 bytes"));
    }
    var state := ReplayState(IDENTITY_REPLAY_STATE_VERSION, publicKey, Ids(identity.keys), identity.cache.order, counter);
    return Ok(Blob(suite, state, key, counter, nonce));
  }

  // ----- Opening a blob -----

  function CounterOf(sealed: Bytes): (counter: U64)
    requires |sealed| > HEADER
  {
    Widths();
    LittleEndian.Decode(sealed[1..9])
  }

  predicate WellFormed(state: ReplayState) {
    && state.stateVersion == IDENTITY_REPLAY_STATE_VERSION
    && |state.fingerprints| <= MAX_SEEN_HANDSHAKE_INITS
    && forall f | f in state.fingerprints :: |f| == HMAC_BYTES
  }

  /** The state a blob restores, if every check on it passes. */
  function Opened(suite: Suite, publicKey: Bytes, sealed: Bytes, key: Bytes, minimum: U64): Option<ReplayState> {
    if |key| != AES_KEY_BYTES || |sealed| <= HEADER || sealed[0] != IDENTITY_REPLAY_STATE_VERSION
       || CounterOf(sealed) < minimum then None
    else
      match suite.open(key, sealed[9..HEADER], sealed[HEADER..], Aad(suite, CounterOf(sealed)))
      case None => None
      case Some(text) =>
        match suite.decode(text)
        case None => None
        case Some(state) => if WellFormed(state) && state.identityPublic == publicKey then Some(state) else None
  }

  /** What restoring does to an identity. */
  ghost function Restored(s: Snapshot, state: ReplayState): Snapshot {
    Next(s, Event.Restore(Elements(state.remainingIds), state.fingerprints))
  }

  method Restore(identity: IdentityKeys, publicKey: Bytes, suite: Suite, sealed: Bytes, key: Bytes, minimum: U64)
    returns (r: Result<U64>)
    requires identity.Valid()
    modifies identity, identity.cache
    ensures r.Ok? <==> Opened(suite, publicKey, sealed, key, minimum).Some?
    ensures r.Ok? ==>
            var state := Opened(suite, publicKey, sealed, key, minimum).value;
            && r.value == CounterOf(sealed)
            && identity.State() == Restored(old(identity.State()), state)
            && identity.cache.recent == Elements(identity.cache.order)
            && (identity.Valid() <==> Sound(identity.cache.State()))
    ensures r.Err? ==> identity.Valid() && identity.State() == old(identity.State())
  {
    var accepted := Opened(suite, publicKey, sealed, key, minimum);
    if accepted.None? {
      return Err(InvalidInput("Sealed identity replay state rejected"));
    }
    var state := accepted.value;
    var remaining := set id | id in state.remainingIds;
    RetainedContents(identity.keys, remaining);
    identity.keys := Retained(identity.keys, remaining);
    identity.cache.Reload(state.fingerprints);
    return Ok(CounterOf(sealed));
  }

  // ----- Export, then restore -----

  lemma BlobFields(suite: Suite, state: ReplayState, key: Bytes, counter: U64, nonce: Bytes)
    requires |nonce| == AES_GCM_NONCE_BYTES && Works(suite)
    ensures var sealed := Blob(suite, state, key, counter, nonce);
            && |sealed| > HEADER && sealed[0] == IDENTITY_REPLAY_STATE_VERSION && CounterOf(sealed) == counter
            && sealed[1..9] == Encode(counter, 8) && sealed[9..HEADER] == nonce
            && sealed[HEADER..] == suite.seal(key, nonce, suite.encode(state), Aad(suite, counter))
  {
    RoundTrip64(counter);
    var sealed := Blob(suite, state, key, counter, nonce);
    assert sealed[1..9] == Encode(counter, 8);
    assert sealed[9..HEADER] == nonce;
  }

  /** Exactly when a byte string restores a state, field by field. */
  lemma OpensExactlyWhen(suite: Suite, publicKey: Bytes, sealed: Bytes, key: Bytes, minimum: U64, state: ReplayState)
    ensures Opened(suite, publicKey, sealed, key, minimum) == Some(state) <==>
            && |key| == 32 && |sealed| > 21 && sealed[0] == 1 && minimum <= LittleEndian.Decode(sealed[1..9])
            && (var text := suite.open(key, sealed[9..21], sealed[21..], suite.domain + [1] + sealed[1..9]);
                text.Some? && suite.decode(text.value) == Some(state))
            && state.identityPublic == publicKey && state.stateVersion == 1
            && |state.fingerprints| <= 16384 && forall f | f in state.fingerprints :: |f| == 32
  {
    if |sealed| > HEADER {
      EncodeDecode(sealed[1..9]);
      assert Aad(suite, CounterOf(sealed)) == suite.domain + [1] + sealed[1..9];
    }
  }

  /** A blob opens exactly for its own identity and key, from its own counter on down. */
  lemma OpensOnlyForItsOwner(suite: Suite, state: ReplayState, key: Bytes, counter: U64, nonce: Bytes,
                             publicKey: Bytes, key': Bytes, minimum: U64)
    requires Works(suite) && Authentic(suite)
    requires |nonce| == AES_GCM_NONCE_BYTES && |key| == AES_KEY_BYTES && WellFormed(state)
    ensures Opened(suite, publicKey, Blob(suite, state, key, counter, nonce), key', minimum) ==
            if key' == key && publicKey == state.identityPublic && minimum <= counter then Some(state) else None
  {
    BlobFields(suite, state, key, counter, nonce);
    assert suite.open(key, nonce, suite.seal(key, nonce, suite.encode(state), Aad(suite, counter)), Aad(suite, counter))
        == Some(suite.encode(state));
  }

  /** Any other counter written into the header of a blob makes it fail. */
  lemma ChangedCounterIsRejected(suite: Suite, state: ReplayState, key: Bytes, counter: U64, nonce: Bytes,
                                 publicKey: Bytes, key': Bytes, minimum: U64, forged: U64)
    requires Works(suite) && Authentic(suite) && |nonce| == AES_GCM_NONCE_BYTES && forged != counter
    ensures var sealed := Blob(suite, state, key, counter, nonce);
            Opened(suite, publicKey, sealed[..1] + Encode(forged, 8) + sealed[9..], key', minimum).None?
  {
    BlobFields(suite, state, key, counter, nonce);
    var sealed := Blob(suite, state, key, counter, nonce);
    var changed := sealed[..1] + Encode(forged, 8) + sealed[9..];
    assert changed[1..9] == Encode(forged, 8);
    assert changed[9..HEADER] == sealed[9..HEADER];
    assert changed[HEADER..] == sealed[HEADER..];
    RoundTrip64(forged);
    RoundTrip64(counter);
    assert Aad(suite, forged)[|suite.domain| + 1..] == Encode(forged, 8);
    assert Aad(suite, counter)[|suite.domain| + 1..] == Encode(counter, 8);
    assert Aad(suite, forged) != Aad(suite, counter);
  }

  /** The identity rebuilt from its seed and restored from a blob of `s`. */
  ghost function Rebuilt(s: Snapshot, derive: Derivation, count: nat, publicKey: Bytes, counter: U64): Snapshot {
    Restored(Snapshot(EMPTY, SeedKeys(derive, count), 0), Exported(s, publicKey, counter))
  }

  lemma IdsAreIdSet(keys: seq<PreKey>)
    ensures Elements(Ids(keys)) == IdSet(keys)
  {
    forall id | id in Elements(Ids(keys)) ensures id in IdSet(keys) {
      var i :| 0 <= i < |keys| && Ids(keys)[i] == id;
      assert keys[i] in keys;
    }
    forall id | id in IdSet(keys) ensures id in Elements(Ids(keys)) {
      var i :| 0 <= i < |keys| && keys[i].id == id;
      assert Ids(keys)[i] == id;
    }
  }

  /**
   After export, rebuild and restore the cache is sound and refuses every fingerprint remembered at
   export, and the pool holds exactly the seed keys whose ids were still pooled.
   */
  lemma RebuildKeepsProtection(s: Snapshot, derive: Derivation, count: nat, publicKey: Bytes, counter: U64)
    requires Sound(s.cache)
    ensures WellFormed(Exported(s, publicKey, counter))
    ensures var t := Rebuilt(s, derive, count, publicKey, counter);
            && Sound(t.cache)
            && (forall f | f in s.cache.order :: !Admits(t.cache, f))
            && (forall k :: k in t.keys <==> k in SeedKeys(derive, count) && k.id in IdSet(s.keys))
  {
    IdsAreIdSet(s.keys);
    RetainedContents(SeedKeys(derive, count), IdSet(s.keys));
  }

  // ----- When consumed seed keys stay gone -----

  /** Every derived key in the pool is one of the seed's. */
  ghost predicate FromSeed(keys: seq<PreKey>, derive: Derivation, count: nat) {
    forall k | k in keys && k.secret.Derived? :: k in SeedKeys(derive, count)
  }

  /** A replenished key carries the id of a seed key. */
  ghost predicate Shadows(keys: seq<PreKey>, derive: Derivation, count: nat) {
    exists k :: k in keys && k.secret.Random? && k.id in IdSet(SeedKeys(derive, count))
  }

  lemma SameIdSameKey(keys: seq<PreKey>, k: PreKey, j: PreKey)
    requires Proper(keys) && k in keys && j in keys && k.id == j.id
    ensures k == j
  {
    var a :| 0 <= a < |keys| && keys[a] == k;
    var b :| 0 <= b < |keys| && keys[b] == j;
  }

  lemma PooledSeedKey(keys: seq<PreKey>, derive: Derivation, count: nat, k: PreKey)
    requires FromSeed(keys, derive, count) && Proper(SeedKeys(derive, count)) && !Shadows(keys, derive, count)
    requires k in SeedKeys(derive, count) && k.id in IdSet(keys)
    ensures k in keys
  {
    var j :| j in keys && j.id == k.id;
    assert k.id in IdSet(SeedKeys(derive, count));
    SameIdSameKey(SeedKeys(derive, count), k, j);
  }

  /**
   A seed key that had left the pool before the export comes back with the rebuild if and only if
   some replenished key was pooled under the id of a seed key.
   */
  lemma ConsumedKeysReturnIffShadowed(s: Snapshot, derive: Derivation, count: nat, publicKey: Bytes, counter: U64)
    requires Proper(s.keys) && FromSeed(s.keys, derive, count) && Proper(SeedKeys(derive, count)) && Sound(s.cache)
    ensures (exists k :: k in Rebuilt(s, derive, count, publicKey, counter).keys && k !in s.keys)
            <==> Shadows(s.keys, derive, count)
  {
    var seed, back := SeedKeys(derive, count), Rebuilt(s, derive, count, publicKey, counter).keys;
    RebuildKeepsProtection(s, derive, count, publicKey, counter);
    if Shadows(s.keys, derive, count) {
      var k :| k in s.keys && k.secret.Random? && k.id in IdSet(seed);
      var j :| j in seed && j.id == k.id;
      if j in s.keys {
        SameIdSameKey(s.keys, k, j);
      }
      assert k.id in IdSet(s.keys);
      assert j in back && j !in s.keys;
    } else {
      forall k | k in back ensures k in s.keys {
        PooledSeedKey(s.keys, derive, count, k);
      }
    }
  }

  /** Every run from the seed's keys keeps the derived keys of the pool among them. */
  lemma {:induction false} RunKeepsFromSeed(s: Snapshot, events: seq<Event>, derive: Derivation, count: nat)
    requires FromSeed(s.keys, derive, count)
    ensures FromSeed(Reached(s, events).keys, derive, count)
  {
    if events != [] {
      var before, last := events[..|events| - 1], events[|events| - 1];
      RunKeepsFromSeed(s, before, derive, count);
      var keys := Reached(s, before).keys;
      match last
      case Attempt(init, _) =>
        if init.preKeyId.Some? {
          RetainedContents(keys, IdSet(keys) - {init.preKeyId.value});
        }
      case Replenish(ids) =>
      case Restore(remaining, _) =>
        RetainedContents(keys, remaining);
    }
  }

  /** The seed of the run below: one key, with id 2. */
  function ZeroSeed(i: nat): U32 { 0 }

  const SEED_KEY := PreKey(2, Derived(1))
  const SEEDED := Snapshot(EMPTY, [SEED_KEY], 0)
  const SERVED := Attempt(Init(Zeros(HMAC_BYTES), Some(2), true, true), Done)
  const REDRAWN := Event.Replenish([2])

  lemma ServingSeedKey()
    ensures Enabled(SEEDED, SERVED)
    ensures Next(SEEDED, SERVED).keys == []
    ensures ServedBy(SEEDED.keys, SERVED) == [SEED_KEY.secret]
  {
    assert SEED_KEY in SEEDED.keys;
    assert IdSet([SEED_KEY]) - {2} == {};
    assert [SEED_KEY][..0] == [] && !Listed({})(SEED_KEY);
    assert Retained([SEED_KEY], {}) == Retained([], {}) == [];
    assert Position([SEED_KEY], 2) == Some(0);
  }

  lemma RedrawingId(s: Snapshot)
    requires s.keys == []
    ensures Enabled(s, REDRAWN) && 2 in IdSet(Next(s, REDRAWN).keys) && ServedBy(s.keys, REDRAWN) == []
  {
    assert NewKeys([2], s.serial)[0] in Next(s, REDRAWN).keys;
  }

  lemma TwoSteps(start: Snapshot, first: Event, second: Event)
    requires Enabled(start, first) && Enabled(Next(start, first), second)
    ensures Run(start, [first, second]) && Reached(start, [first, second]) == Next(Next(start, first), second)
    ensures Served(start, [first, second]) == ServedBy(start.keys, first) + ServedBy(Next(start, first).keys, second)
  {
    var events := [first, second];
    assert events[..0] == [] && events[..1] == [first] && [first][..0] == [];
    assert Served(start, [first]) == [] + ServedBy(start.keys, first);
  }

  /** The family is not empty: a key serves a handshake, its id is drawn again, and the rebuild has the key. */
  lemma ServedKeyCanReturn()
    ensures SeedKeys(ZeroSeed, 1) == SEEDED.keys
    ensures Run(SEEDED, [SERVED, REDRAWN]) && Served(SEEDED, [SERVED, REDRAWN]) == [SEED_KEY.secret]
    ensures SEED_KEY in Rebuilt(Reached(SEEDED, [SERVED, REDRAWN]), ZeroSeed, 1, [], 0).keys
  {
    ServingSeedKey();
    RedrawingId(Next(SEEDED, SERVED));
    TwoSteps(SEEDED, SERVED, REDRAWN);
    RebuiltHas(Reached(SEEDED, [SERVED, REDRAWN]), SEED_KEY);
  }

  lemma RebuiltHas(s: Snapshot, key: PreKey)
    requires key == SEED_KEY && key.id in IdSet(s.keys)
    ensures key in Rebuilt(s, ZeroSeed, 1, [], 0).keys
  {
    assert SeedKeys(ZeroSeed, 1) == [SEED_KEY];
    IdsAreIdSet(s.keys);
    RetainedContents(SeedKeys(ZeroSeed, 1), IdSet(s.keys));
  }
}

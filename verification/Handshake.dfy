/**
 The hybrid X3DH handshake over a free term algebra. Derived keys and codes are terms, so two of them
 are equal only when they were computed alike; a Diffie-Hellman value is the unordered pair of its
 two scalars. The message codec and the byte form of public keys are parameters.
 */
module Handshake {
  import opened Arithmetic
  import opened LittleEndian
  import opened Outcomes

  const PROTOCOL_VERSION: U32 := 2
  const MAX_MESSAGES_PER_CHAIN := 10000
  const MAX_ONE_TIME_PRE_KEYS_PER_BUNDLE := 4096
  const ROOT_KEY_BYTES := 32
  const SESSION_ID_BYTES := 16
  const METADATA_KEY_BYTES := 32
  const HMAC_BYTES := 32
  const KEY_BYTES := 32
  const SIGNATURE_BYTES := 64
  const KYBER_PUBLIC_KEY_BYTES := 1184

  // ----- Terms -----

  datatype Term =
    | Raw(bytes: Bytes)
    | Label(text: string)
    | Fill
    | Sent(ciphertext: Ciphertext)
    | Shared(low: nat, high: nat)
    | Encapsulated(recipient: nat, coins: nat)
    | ImplicitRejection(recipient: nat, ciphertext: Ciphertext)
    | Cat(parts: seq<Term>)
    | Kdf(ikm: Term, length: nat, salt: Term, info: string)
    | Mac(key: Term, data: Term)

  /** Values of 32-byte keys and of ML-KEM public keys. */
  type Key = x: nat | x < Power256(KEY_BYTES)
  type KyberKey = x: nat | x < Power256(KYBER_PUBLIC_KEY_BYTES)

  /** A curve point: the public key of a scalar, or a point of low order. */
  datatype Point = Public(scalar: Key) | LowOrder(tag: nat)

  datatype Ciphertext = Ciphertext(recipient: nat, coins: nat)

  datatype Statement = KeyOf(point: Point) | Binding(signer: nat, identity: Point, kyber: nat)
  datatype Signature = Signed(signer: nat, statement: Statement) | Unsigned(tag: nat)

  /** A low-order point yields the all-zero output, which is refused (RFC 7748, section 6.1). */
  function ComputeDh(secret: Key, public: Point): Result<Term> {
    match public
    case LowOrder(_) => Err(ProtocolError.Handshake("X25519 DH produced all-zero output"))
    case Public(scalar) => Ok(if secret <= scalar then Shared(secret, scalar) else Shared(scalar, secret))
  }

  lemma DhCommutes(a: Key, b: Key)
    ensures ComputeDh(a, Public(b)) == ComputeDh(b, Public(a))
  {
  }

  /** Of two exchanges of one secret, equal values mean equal partners. */
  lemma DhDeterminesPartner(a: Key, b: Key, c: Key)
    requires ComputeDh(a, Public(b)) == ComputeDh(a, Public(c))
    ensures b == c
  {
  }

  function Encapsulate(recipient: nat, coins: nat): (Ciphertext, Term) {
    (Ciphertext(recipient, coins), Encapsulated(recipient, coins))
  }

  function Decapsulate(secret: nat, c: Ciphertext): Term {
    if c.recipient == secret then Encapsulated(secret, c.coins) else ImplicitRejection(secret, c)
  }

  // ----- Messages -----

  datatype OfferedPreKey = OfferedPreKey(id: U32, public: Point)

  datatype Bundle = Bundle(
    version: U32,
    identityEd: Key,
    identityX: Point,
    identityXSignature: Signature,
    signedPreKeyId: U32,
    signedPreKey: Point,
    signedPreKeySignature: Signature,
    kyber: KyberKey,
    oneTimePreKeys: seq<OfferedPreKey>
  )

  datatype InitMessage = InitMessage(
    version: U32,
    identityEd: Key,
    identityX: Point,
    ephemeral: Point,
    preKeyId: Option<U32>,
    ciphertext: Ciphertext,
    kyber: KyberKey,
    maxMessages: U32,
    mac: Term,
    bindingSignature: Signature
  )

  datatype Ack = Ack(version: U32, mac: Term)

  datatype Codec = Codec(bundle: Bundle -> Bytes, init: InitMessage -> Bytes, point: Point -> Bytes)

  /** Different messages have different encodings, and a valid bundle is no longer than its fields allow. */
  ghost predicate Faithful(codec: Codec) {
    && (forall a, b | codec.bundle(a) == codec.bundle(b) :: a == b)
    && (forall a, b | codec.init(a) == codec.init(b) :: a == b)
    && (forall b | ValidBundle(b) :: |codec.bundle(b)| <= WireSize(b))
  }

  // ----- The size of a bundle on the wire -----

  function VarintSize(n: nat): nat {
    if n < 128 then 1 else 1 + VarintSize(n / 128)
  }

  /** A length-delimited field: tag, length and content. */
  function FieldSize(content: nat): nat {
    1 + VarintSize(content) + content
  }

  function OffersSize(offers: seq<OfferedPreKey>): nat {
    if offers == [] then 0
    else
      var last := offers[|offers| - 1];
      OffersSize(offers[..|offers| - 1]) + FieldSize(1 + VarintSize(last.id) + FieldSize(KEY_BYTES))
  }

  /** What the nine fields of a bundle take when none is omitted. */
  function WireSize(b: Bundle): nat {
    1 + VarintSize(b.version) + 1 + VarintSize(b.signedPreKeyId)
    + 3 * FieldSize(KEY_BYTES) + 2 * FieldSize(SIGNATURE_BYTES) + FieldSize(KYBER_PUBLIC_KEY_BYTES)
    + OffersSize(b.oneTimePreKeys)
  }

  lemma VarintIsShort(n: U32)
    ensures 1 <= VarintSize(n) <= 5
  {
    assert VarintSize(n / 0x20_0000) <= 2;
    assert n >= 128 ==> VarintSize(n) == 1 + VarintSize(n / 128);
    assert n >= 0x4000 ==> VarintSize(n / 128) == 1 + VarintSize(n / 0x4000);
    assert n >= 0x20_0000 ==> VarintSize(n / 0x4000) == 1 + VarintSize(n / 0x20_0000);
  }

  lemma {:induction false} OffersAreShort(offers: seq<OfferedPreKey>)
    ensures OffersSize(offers) <= 42 * |offers|
  {
    if offers != [] {
      OffersAreShort(offers[..|offers| - 1]);
      VarintIsShort(offers[|offers| - 1].id);
      assert FieldSize(KEY_BYTES) == 34;
    }
  }

  /** The checks on a bundle keep its encoding far below the range of the length prefix. */
  lemma ValidBundleIsShort(b: Bundle)
    requires ValidBundle(b)
    ensures WireSize(b) <= 0x3_0000
  {
    OffersAreShort(b.oneTimePreKeys);
    VarintIsShort(b.version);
    VarintIsShort(b.signedPreKeyId);
    assert FieldSize(KEY_BYTES) == 34 && FieldSize(SIGNATURE_BYTES) == 66;
    assert VarintSize(KYBER_PUBLIC_KEY_BYTES) == 1 + VarintSize(9) == 2;
  }

  // ----- The transcript -----

  /** Two length-prefixed fields; the prefix holds the low 32 bits of the length. */
  function Framed(bundle: Bytes, init: Bytes): Bytes {
    Framing(4, bundle, init)
  }

  function Framing(width: nat, a: Bytes, x: Bytes): Bytes {
    Joined(Encode(|a|, width), a, Encode(|x|, width), x)
  }

  function Joined(lengthA: Bytes, a: Bytes, lengthX: Bytes, x: Bytes): Bytes {
    lengthA + a + (lengthX + x)
  }

  function TranscriptHash(codec: Codec, bundle: Bundle, init: InitMessage): Term {
    Mac(Label("Aura-Handshake-Transcript"), Raw(Framed(codec.bundle(bundle), codec.init(init.(mac := Raw([]))))))
  }

  lemma FramingIsUnique(w: nat, a: Bytes, x: Bytes, b: Bytes, y: Bytes)
    requires |a| < Power256(w) && |b| < Power256(w) && Framing(w, a, x) == Framing(w, b, y)
    ensures a == b && x == y
  {
    DecodeEncode(|a|, w);
    DecodeEncode(|b|, w);
    var framed := Framing(w, a, x);
    assert Encode(|a|, w) == framed[..w] == Encode(|b|, w);
    assert a == framed[w..w + |a|] == b;
    assert x == framed[w + |a| + w..] == y;
  }

  lemma Regroup(e: Bytes, b: Bytes, prefix: Bytes, rest: Bytes, lengthX: Bytes, x: Bytes)
    ensures Joined(e, b + (prefix + rest), lengthX, x) == Joined(e, b, prefix, rest + (lengthX + x))
  {
  }

  lemma SameFraming(w: nat, a: Bytes, b: Bytes, prefix: Bytes, rest: Bytes, x: Bytes, y: Bytes)
    requires a == b + (prefix + rest) && y == rest + (Encode(|x|, w) + x)
    requires Encode(|a|, w) == Encode(|b|, w) && Encode(|y|, w) == prefix
    ensures Framing(w, a, x) == Framing(w, b, y)
  {
    Regroup(Encode(|b|, w), b, prefix, rest, Encode(|x|, w), x);
  }

  lemma TurnsAreLost(w: nat, n: nat, turns: nat)
    requires turns % Power256(w) == 0
    ensures Encode(n + turns, w) == Encode(n, w)
  {
    ExactQuotient(turns, Power256(w));
    EncodeIsPeriodic(n, turns / Power256(w), w);
  }

  /** A prefix too narrow for the first field announces a shorter one. */
  lemma NarrowPrefixCollides(w: nat, a: Bytes, turns: nat) returns (x: Bytes, b: Bytes, y: Bytes)
    requires w < turns <= |a| && turns % Power256(w) == 0 && |a| - turns < Power256(w)
    ensures a != b && |b| < Power256(w) && Framing(w, a, x) == Framing(w, b, y)
  {
    var m := |a| - turns;
    b := a[..m];
    var prefix, rest := a[m..m + w], a[m + w..];
    x := Zeros(LittleEndian.Decode(prefix));
    y := rest + (Encode(|x|, w) + x);
    TurnsAreLost(w, m, turns);
    TurnsAreLost(w, |x|, turns);
    EncodeDecode(prefix);
    assert |y| == |x| + turns;
    assert a == b + (prefix + rest);
    SameFraming(w, a, b, prefix, rest, x, y);
  }

  /** The transcript of two fields determines both, as long as the first is below four gigabytes. */
  lemma FramedIsUnique(a: Bytes, x: Bytes, b: Bytes, y: Bytes)
    requires |a| < 0x1_0000_0000 && |b| < 0x1_0000_0000
    requires Framed(a, x) == Framed(b, y)
    ensures a == b && x == y
  {
    Widths();
    FramingIsUnique(4, a, x, b, y);
  }

  /** Every longer first field shares a transcript with the field its truncated prefix announces. */
  lemma EveryLongerFieldCollides(a: Bytes) returns (x: Bytes, b: Bytes, y: Bytes)
    requires |a| >= 0x1_0000_0000
    ensures a != b && |b| < 0x1_0000_0000 && Framed(a, x) == Framed(b, y)
  {
    Widths();
    x, b, y := NarrowPrefixCollides(4, a, |a| - |a| % 0x1_0000_0000);
  }

  /** Four gigabytes is the exact bound. */
  ghost predicate Separated(a: Bytes) {
    forall x, b, y | |b| < 0x1_0000_0000 && Framed(a, x) == Framed(b, y) :: a == b && x == y
  }

  lemma SeparatedIffShort(a: Bytes)
    ensures Separated(a) <==> |a| < 0x1_0000_0000
  {
    if |a| < 0x1_0000_0000 {
      forall x, b, y | |b| < 0x1_0000_0000 && Framed(a, x) == Framed(b, y) ensures a == b && x == y {
        FramedIsUnique(a, x, b, y);
      }
    } else {
      var x, b, y := EveryLongerFieldCollides(a);
      assert Framed(a, x) == Framed(b, y);
    }
  }

  // ----- The metadata context -----

  predicate Greater(a: Bytes, b: Bytes)
    decreases |a|
  {
    if a == [] then false
    else if b == [] then true
    else if a[0] != b[0] then a[0] > b[0]
    else Greater(a[1..], b[1..])
  }

  /** The public keys in byte order, so that both sides build the same context. */
  function MetadataContext(own: Bytes, peer: Bytes, sessionId: Term): Term {
    if Greater(own, peer) then Cat([Raw(peer), Raw(own), sessionId]) else Cat([Raw(own), Raw(peer), sessionId])
  }

  lemma {:induction false} OrderIsTotal(a: Bytes, b: Bytes)
    ensures !(Greater(a, b) && Greater(b, a))
    ensures Greater(a, b) || Greater(b, a) || a == b
    decreases |a|
  {
    if a != [] && b != [] {
      OrderIsTotal(a[1..], b[1..]);
      assert a == [a[0]] + a[1..] && b == [b[0]] + b[1..];
    }
  }

  /** The order is lexicographic: the first difference decides, and a longer string follows its prefixes. */
  lemma {:induction false} GreaterIsLexicographic(a: Bytes, b: Bytes)
    ensures Greater(a, b) <==> exists i: nat :: FirstDifference(a, b, i)
    decreases |a|
  {
    if a != [] && b == [] {
      assert FirstDifference(a, b, 0);
    } else if a != [] && a[0] != b[0] {
      if a[0] > b[0] {
        assert FirstDifference(a, b, 0);
      }
    } else if a != [] {
      GreaterIsLexicographic(a[1..], b[1..]);
      if i: nat :| FirstDifference(a[1..], b[1..], i) {
        assert FirstDifference(a, b, i + 1) by {
          assert forall k | 0 < k <= i :: a[k] == a[1..][k - 1] && b[k] == b[1..][k - 1];
        }
      }
      if i: nat :| FirstDifference(a, b, i) {
        assert FirstDifference(a[1..], b[1..], i - 1);
      }
    }
  }

  /** Up to `i` the strings agree, and there `a` has the greater byte or `b` has ended. */
  ghost predicate FirstDifference(a: Bytes, b: Bytes, i: nat) {
    && i < |a| && i <= |b| && (forall k | 0 <= k < i :: a[k] == b[k])
    && (i == |b| || a[i] > b[i])
  }

  /** The smaller key comes first. */
  lemma ContextIsSorted(a: Bytes, b: Bytes, sessionId: Term)
    ensures exists low, high :: MetadataContext(a, b, sessionId) == Cat([Raw(low), Raw(high), sessionId]) && !Greater(low, high)
  {
    OrderIsTotal(a, b);
    var low, high := if Greater(a, b) then b else a, if Greater(a, b) then a else b;
    assert MetadataContext(a, b, sessionId) == Cat([Raw(low), Raw(high), sessionId]) && !Greater(low, high);
  }

  lemma ContextIsSymmetric(a: Bytes, b: Bytes, sessionId: Term)
    ensures MetadataContext(a, b, sessionId) == MetadataContext(b, a, sessionId)
  {
    OrderIsTotal(a, b);
  }

  /** A context determines the session and the two keys, up to their order. */
  lemma ContextDetermines(a: Bytes, b: Bytes, sessionId: Term, a': Bytes, b': Bytes, sessionId': Term)
    requires MetadataContext(a, b, sessionId) == MetadataContext(a', b', sessionId')
    ensures sessionId == sessionId' && ((a == a' && b == b') || (a == b' && b == a'))
  {
    var parts, parts' := MetadataContext(a, b, sessionId).parts, MetadataContext(a', b', sessionId').parts;
    assert parts[0] == parts'[0] && parts[1] == parts'[1] && parts[2] == parts'[2];
  }

  // ----- Validation -----

  predicate ValidBundle(bundle: Bundle) {
    && bundle.version == PROTOCOL_VERSION
    && bundle.identityXSignature == Signed(bundle.identityEd, KeyOf(bundle.identityX))
    && bundle.signedPreKeySignature == Signed(bundle.identityEd, KeyOf(bundle.signedPreKey))
    && bundle.identityX.Public? && bundle.signedPreKey.Public?
    && |bundle.oneTimePreKeys| <= MAX_ONE_TIME_PRE_KEYS_PER_BUNDLE
    && forall k | k in bundle.oneTimePreKeys :: k.public.Public?
  }

  predicate ValidLimit(maxMessages: U32) {
    0 < maxMessages <= MAX_MESSAGES_PER_CHAIN
  }

  predicate ValidInit(init: InitMessage) {
    && init.version == PROTOCOL_VERSION
    && init.identityX.Public? && init.ephemeral.Public?
    && ValidLimit(init.maxMessages)
    && init.bindingSignature == Signed(init.identityEd, Binding(init.identityEd, init.identityX, init.kyber))
  }

  // ----- Sessions -----

  datatype Keys = Keys(root: Term, sessionId: Term, metadata: Term, confirmInit: Term, confirmResponse: Term)

  datatype Session = Session(
    isInitiator: bool,
    keys: Keys,
    kemSecret: Term,
    ownRatchet: Point,
    peerRatchet: Point,
    ownKyber: nat,
    peerKyber: nat,
    maxMessages: U32,
    ownEd: nat,
    ownX: Point,
    peerEd: nat,
    peerX: Point
  )

  /** The two ends of one session: shared keys, and what is one's own is the other's peer. */
  ghost predicate Mirrored(a: Session, b: Session) {
    && a.isInitiator != b.isInitiator
    && a.keys == b.keys && a.kemSecret == b.kemSecret && a.maxMessages == b.maxMessages
    && a.ownRatchet == b.peerRatchet && a.peerRatchet == b.ownRatchet
    && a.ownKyber == b.peerKyber && a.peerKyber == b.ownKyber
    && a.ownEd == b.peerEd && a.peerEd == b.ownEd
    && a.ownX == b.peerX && a.peerX == b.ownX
  }

  // ----- The initiator -----

  /** An identity's long-term secrets. */
  datatype Identity = Identity(ed: Key, x: Key, kyber: KyberKey)

  /** The random choices of one start: the ephemeral scalar, the index drawn and the encapsulation coins. */
  datatype Choices = Choices(ephemeral: Key, draw: nat, coins: nat)

  datatype Initiator = Initiator(init: InitMessage, session: Session, expectedAck: Term)

  function ChosenPreKey(bundle: Bundle, draw: nat): Option<OfferedPreKey> {
    if bundle.oneTimePreKeys == [] then None
    else Some(bundle.oneTimePreKeys[draw % |bundle.oneTimePreKeys|])
  }

  function Start(codec: Codec, me: Identity, bundle: Bundle, maxMessages: U32, choices: Choices): Result<Initiator> {
    if !ValidBundle(bundle) then Err(InvalidInput("Invalid PreKeyBundle"))
    else if !ValidLimit(maxMessages) then Err(InvalidInput("Invalid max messages per chain"))
    else if me.ed == bundle.identityEd then Err(InvalidInput("Reflexion attack: peer identity key matches local identity key"))
    else
      var ephemeralPublic := Public(choices.ephemeral);
      var preKey := ChosenPreKey(bundle, choices.draw);
      var dh1 :- ComputeDh(me.x, bundle.signedPreKey);
      var dh2 :- ComputeDh(choices.ephemeral, bundle.identityX);
      var dh3 :- ComputeDh(choices.ephemeral, bundle.signedPreKey);
      var dh4 :- match preKey {
        case None => Ok([])
        case Some(k) => match ComputeDh(choices.ephemeral, k.public) { case Ok(d) => Ok([d]) case Err(e) => Err(e) }
      };
      var classical := Kdf(Cat([Fill, dh1, dh2, dh3] + dh4), ROOT_KEY_BYTES, Raw([]), "Aura-X3DH");
      var (ciphertext, kemSecret) := Encapsulate(bundle.kyber, choices.coins);
      var root := Kdf(kemSecret, ROOT_KEY_BYTES, classical, "Aura-Hybrid-X3DH");
      var sessionId := Kdf(root, SESSION_ID_BYTES, Sent(ciphertext), "Aura-SessionId");
      var context := MetadataContext(codec.point(ephemeralPublic), codec.point(bundle.signedPreKey), sessionId);
      var metadata := Kdf(root, METADATA_KEY_BYTES, context, "Aura-MetadataKey");
      var confirmInit := Kdf(root, HMAC_BYTES, Raw([]), "Aura-KeyConfirm-I");
      var confirmResponse := Kdf(root, HMAC_BYTES, Raw([]), "Aura-KeyConfirm-R");
      var unsent := InitMessage(PROTOCOL_VERSION, me.ed, Public(me.x), ephemeralPublic,
                                match preKey { case None => None case Some(k) => Some(k.id) },
                                ciphertext, me.kyber, maxMessages, Raw([]),
                                Signed(me.ed, Binding(me.ed, Public(me.x), me.kyber)));
      var transcript := TranscriptHash(codec, bundle, unsent);
      var session := Session(true, Keys(root, sessionId, metadata, confirmInit, confirmResponse), kemSecret,
                             ephemeralPublic, bundle.signedPreKey, me.kyber, bundle.kyber, maxMessages,
                             me.ed, Public(me.x), bundle.identityEd, bundle.identityX);
      Ok(Initiator(unsent.(mac := Mac(confirmInit, transcript)), session, Mac(confirmResponse, transcript)))
  }

  function Finish(initiator: Initiator, ack: Ack): Result<Session> {
    if ack.version != PROTOCOL_VERSION then Err(InvalidInput("Invalid HandshakeAck version"))
    else if ack.mac != initiator.expectedAck then Err(ProtocolError.Handshake("Responder key confirmation failed"))
    else Ok(initiator.session)
  }

  // ----- The responder -----

  /** A responder's secrets: its identity, its signed prekey and its pool of one-time prekeys. */
  datatype Holder = Holder(identity: Identity, signedPreKey: Key, pool: map<U32, Key>)

  datatype Response = Response(ack: Ack, session: Session)

  function Process(codec: Codec, me: Holder, bundle: Bundle, init: InitMessage, maxMessages: U32): Result<Response> {
    if !ValidBundle(bundle) then Err(InvalidInput("Invalid PreKeyBundle"))
    else if !ValidLimit(maxMessages) then Err(InvalidInput("Invalid max messages per chain"))
    else if !ValidInit(init) then Err(InvalidInput("Invalid HandshakeInit"))
    else if bundle.identityEd == init.identityEd then
      Err(InvalidInput("Reflexion attack: initiator identity key matches local identity key"))
    else if init.maxMessages != maxMessages then Err(InvalidInput("Handshake ratchet config mismatch"))
    else if init.preKeyId.Some? && init.preKeyId.value !in me.pool then Err(ProtocolError.Handshake("Requested OPK not found"))
    else
      var dh1 :- ComputeDh(me.signedPreKey, init.identityX);
      var dh2 :- ComputeDh(me.identity.x, init.ephemeral);
      var dh3 :- ComputeDh(me.signedPreKey, init.ephemeral);
      var dh4 :- match init.preKeyId {
        case None => Ok([])
        case Some(id) => match ComputeDh(me.pool[id], init.ephemeral) { case Ok(d) => Ok([d]) case Err(e) => Err(e) }
      };
      var classical := Kdf(Cat([Fill, dh1, dh2, dh3] + dh4), ROOT_KEY_BYTES, Raw([]), "Aura-X3DH");
      var kemSecret := Decapsulate(me.identity.kyber, init.ciphertext);
      var root := Kdf(kemSecret, ROOT_KEY_BYTES, classical, "Aura-Hybrid-X3DH");
      var sessionId := Kdf(root, SESSION_ID_BYTES, Sent(init.ciphertext), "Aura-SessionId");
      var context := MetadataContext(codec.point(bundle.signedPreKey), codec.point(init.ephemeral), sessionId);
      var metadata := Kdf(root, METADATA_KEY_BYTES, context, "Aura-MetadataKey");
      var confirmInit := Kdf(root, HMAC_BYTES, Raw([]), "Aura-KeyConfirm-I");
      var confirmResponse := Kdf(root, HMAC_BYTES, Raw([]), "Aura-KeyConfirm-R");
      var transcript := TranscriptHash(codec, bundle, init);
      if init.mac != Mac(confirmInit, transcript) then Err(ProtocolError.Handshake("Initiator key confirmation failed"))
      else
        var session := Session(false, Keys(root, sessionId, metadata, confirmInit, confirmResponse), kemSecret,
                               bundle.signedPreKey, init.ephemeral, me.identity.kyber, init.kyber, maxMessages,
                               bundle.identityEd, bundle.identityX, init.identityEd, init.identityX);
        Ok(Response(Ack(PROTOCOL_VERSION, Mac(confirmResponse, transcript)), session))
  }

  // ----- Agreement -----

  /** The bundle's public keys are those of the holder's secrets. */
  ghost predicate Owns(me: Holder, bundle: Bundle) {
    && bundle.identityX == Public(me.identity.x)
    && bundle.signedPreKey == Public(me.signedPreKey)
    && bundle.kyber == me.identity.kyber
    && forall k | k in bundle.oneTimePreKeys :: k.id in me.pool && k.public == Public(me.pool[k.id])
  }

  /**
   Honest runs meet: whatever an initiator starts against a bundle, the bundle's owner accepts with
   the mirrored session, and the initiator accepts the answer.
   */
  lemma HonestAgreement(codec: Codec, me: Identity, you: Holder, bundle: Bundle, maxMessages: U32, choices: Choices)
    requires Owns(you, bundle) && Start(codec, me, bundle, maxMessages, choices).Ok?
    ensures var started := Start(codec, me, bundle, maxMessages, choices).value;
            var answer := Process(codec, you, bundle, started.init, maxMessages);
            && answer.Ok?
            && Mirrored(started.session, answer.value.session)
            && Finish(started, answer.value.ack) == Ok(started.session)
  {
    var started := Start(codec, me, bundle, maxMessages, choices).value;
    ContextIsSymmetric(codec.point(started.init.ephemeral), codec.point(bundle.signedPreKey), started.session.keys.sessionId);
    var preKey := ChosenPreKey(bundle, choices.draw);
    if preKey.Some? {
      assert preKey.value in bundle.oneTimePreKeys;
      DhCommutes(choices.ephemeral, you.pool[preKey.value.id]);
    }
    DhCommutes(me.x, you.signedPreKey);
    DhCommutes(choices.ephemeral, you.identity.x);
    DhCommutes(choices.ephemeral, you.signedPreKey);
  }

  /**
   A start succeeds exactly on another identity's bundle of the right version, with X25519 keys that are
   signed by it and not of low order and at most 4096 prekeys likewise, and a limit from 1 to 10000.
   */
  lemma StartSucceedsIff(codec: Codec, me: Identity, bundle: Bundle, maxMessages: U32, choices: Choices)
    ensures Start(codec, me, bundle, maxMessages, choices).Ok? <==>
            && me.ed != bundle.identityEd && bundle.version == 2 && 1 <= maxMessages <= 10000
            && bundle.identityX.Public? && bundle.identityXSignature == Signed(bundle.identityEd, KeyOf(bundle.identityX))
            && bundle.signedPreKey.Public? && bundle.signedPreKeySignature == Signed(bundle.identityEd, KeyOf(bundle.signedPreKey))
            && |bundle.oneTimePreKeys| <= 4096 && forall k | k in bundle.oneTimePreKeys :: k.public.Public?
  {
    if ValidBundle(bundle) && bundle.oneTimePreKeys != [] {
      assert bundle.oneTimePreKeys[choices.draw % |bundle.oneTimePreKeys|] in bundle.oneTimePreKeys;
    }
  }

  /** Equal transcripts of valid bundles mean equal bundles, and init messages equal but for their code. */
  lemma TranscriptsAgree(codec: Codec, bundle: Bundle, init: InitMessage, bundle': Bundle, init': InitMessage)
    requires Faithful(codec) && ValidBundle(bundle) && ValidBundle(bundle')
    requires TranscriptHash(codec, bundle, init) == TranscriptHash(codec, bundle', init')
    ensures bundle == bundle' && init.(mac := Raw([])) == init'.(mac := Raw([]))
  {
    ValidBundleIsShort(bundle);
    ValidBundleIsShort(bundle');
    FramedIsUnique(codec.bundle(bundle), codec.init(init.(mac := Raw([]))),
                   codec.bundle(bundle'), codec.init(init'.(mac := Raw([]))));
  }

  /** What a start leaves: its keys from its root, its codes over its transcript, its session from both messages. */
  ghost predicate StartedWith(codec: Codec, bundle: Bundle, s: Initiator) {
    var k := s.session.keys;
    && ValidBundle(bundle) && KeysFrom(codec, bundle, s.init, s.session.kemSecret, k)
    && s.session.kemSecret.Encapsulated? && s.session.kemSecret.recipient == bundle.kyber
    && s.init.mac == Mac(k.confirmInit, TranscriptHash(codec, bundle, s.init))
    && s.expectedAck == Mac(k.confirmResponse, TranscriptHash(codec, bundle, s.init))
    && s.session == Session(true, k, s.session.kemSecret, s.init.ephemeral, bundle.signedPreKey, s.init.kyber, bundle.kyber,
                            s.init.maxMessages, s.init.identityEd, s.init.identityX, bundle.identityEd, bundle.identityX)
  }

  /** The same of an answer. */
  ghost predicate AnsweredWith(codec: Codec, bundle: Bundle, init: InitMessage, r: Response) {
    var k := r.session.keys;
    && ValidBundle(bundle) && KeysFrom(codec, bundle, init, r.session.kemSecret, k)
    && r.session.kemSecret == Decapsulate(r.session.ownKyber, init.ciphertext)
    && init.mac == Mac(k.confirmInit, TranscriptHash(codec, bundle, init))
    && r.ack == Ack(PROTOCOL_VERSION, Mac(k.confirmResponse, TranscriptHash(codec, bundle, init)))
    && r.session == Session(false, k, r.session.kemSecret, bundle.signedPreKey, init.ephemeral, r.session.ownKyber, init.kyber,
                            init.maxMessages, bundle.identityEd, bundle.identityX, init.identityEd, init.identityX)
  }

  ghost predicate KeysFrom(codec: Codec, bundle: Bundle, init: InitMessage, kemSecret: Term, k: Keys) {
    && k.root.Kdf? && k.root.ikm == kemSecret && k.root.info == "Aura-Hybrid-X3DH"
    && k.sessionId == Kdf(k.root, SESSION_ID_BYTES, Sent(init.ciphertext), "Aura-SessionId")
    && k.metadata == Kdf(k.root, METADATA_KEY_BYTES,
                         MetadataContext(codec.point(init.ephemeral), codec.point(bundle.signedPreKey), k.sessionId), "Aura-MetadataKey")
    && k.confirmInit == Kdf(k.root, HMAC_BYTES, Raw([]), "Aura-KeyConfirm-I")
    && k.confirmResponse == Kdf(k.root, HMAC_BYTES, Raw([]), "Aura-KeyConfirm-R")
  }

  lemma StartShape(codec: Codec, me: Identity, bundle: Bundle, maxMessages: U32, choices: Choices)
    requires Start(codec, me, bundle, maxMessages, choices).Ok?
    ensures StartedWith(codec, bundle, Start(codec, me, bundle, maxMessages, choices).value)
    ensures Start(codec, me, bundle, maxMessages, choices).value.init.maxMessages == maxMessages
  {
  }

  lemma AnswerShape(codec: Codec, you: Holder, bundle: Bundle, init: InitMessage, maxMessages: U32)
    requires Process(codec, you, bundle, init, maxMessages).Ok?
    ensures AnsweredWith(codec, bundle, init, Process(codec, you, bundle, init, maxMessages).value)
    ensures init.maxMessages == maxMessages
  {
    var r := Process(codec, you, bundle, init, maxMessages).value;
    ContextIsSymmetric(codec.point(init.ephemeral), codec.point(bundle.signedPreKey), r.session.keys.sessionId);
  }

  // ----- What a root key is made of -----

  /** The root key over the given Diffie-Hellman values and encapsulated secret. */
  function RootOver(dhs: seq<Term>, kemSecret: Term): Term {
    Kdf(kemSecret, 32, Kdf(Cat([Fill] + dhs), 32, Raw([]), "Aura-X3DH"), "Aura-Hybrid-X3DH")
  }

  function Dh(secret: Key, public: Point): Term
    requires public.Public?
  {
    ComputeDh(secret, public).value
  }

  lemma RootDeterminesValues(dhs: seq<Term>, kemSecret: Term, dhs': seq<Term>, kemSecret': Term)
    requires RootOver(dhs, kemSecret) == RootOver(dhs', kemSecret')
    ensures dhs == dhs' && kemSecret == kemSecret'
  {
    assert ([Fill] + dhs)[1..] == dhs && ([Fill] + dhs')[1..] == dhs';
  }

  /** Identity with signed prekey, ephemeral with identity, ephemeral with signed prekey, and with the one-time prekey. */
  function StartValues(me: Identity, bundle: Bundle, choices: Choices): seq<Term>
    requires ValidBundle(bundle)
  {
    var preKey := ChosenPreKey(bundle, choices.draw);
    [Dh(me.x, bundle.signedPreKey), Dh(choices.ephemeral, bundle.identityX), Dh(choices.ephemeral, bundle.signedPreKey)]
    + if preKey.Some? && preKey.value.public.Public? then [Dh(choices.ephemeral, preKey.value.public)] else []
  }

  lemma StartRoot(codec: Codec, me: Identity, bundle: Bundle, maxMessages: U32, choices: Choices)
    requires Start(codec, me, bundle, maxMessages, choices).Ok?
    ensures ValidBundle(bundle)
    ensures var s := Start(codec, me, bundle, maxMessages, choices).value;
            && s.session.keys.root == RootOver(StartValues(me, bundle, choices), Encapsulated(bundle.kyber, choices.coins))
            && s.init.identityX == Public(me.x) && s.init.ephemeral == Public(choices.ephemeral)
            && s.init.preKeyId == (match ChosenPreKey(bundle, choices.draw) case None => None case Some(k) => Some(k.id))
            && (ChosenPreKey(bundle, choices.draw).Some? ==> ChosenPreKey(bundle, choices.draw).value.public.Public?)
  {
    var preKey := ChosenPreKey(bundle, choices.draw);
    if preKey.Some? {
      assert preKey.value in bundle.oneTimePreKeys;
      assert [Fill] + StartValues(me, bundle, choices)
          == [Fill, Dh(me.x, bundle.signedPreKey), Dh(choices.ephemeral, bundle.identityX), Dh(choices.ephemeral, bundle.signedPreKey)]
             + [Dh(choices.ephemeral, preKey.value.public)];
    } else {
      assert [Fill] + StartValues(me, bundle, choices)
          == [Fill, Dh(me.x, bundle.signedPreKey), Dh(choices.ephemeral, bundle.identityX), Dh(choices.ephemeral, bundle.signedPreKey)] + [];
    }
  }

  function AnswerValues(you: Holder, init: InitMessage): seq<Term>
    requires init.identityX.Public? && init.ephemeral.Public?
  {
    [Dh(you.signedPreKey, init.identityX), Dh(you.identity.x, init.ephemeral), Dh(you.signedPreKey, init.ephemeral)]
    + if init.preKeyId.Some? && init.preKeyId.value in you.pool then [Dh(you.pool[init.preKeyId.value], init.ephemeral)] else []
  }

  lemma AnswerRoot(codec: Codec, you: Holder, bundle: Bundle, init: InitMessage, maxMessages: U32)
    requires Process(codec, you, bundle, init, maxMessages).Ok?
    ensures init.identityX.Public? && init.ephemeral.Public? && (init.preKeyId.Some? ==> init.preKeyId.value in you.pool)
    ensures Process(codec, you, bundle, init, maxMessages).value.session.keys.root
            == RootOver(AnswerValues(you, init), Decapsulate(you.identity.kyber, init.ciphertext))
  {
    var dhs := [Dh(you.signedPreKey, init.identityX), Dh(you.identity.x, init.ephemeral), Dh(you.signedPreKey, init.ephemeral)];
    if init.preKeyId.Some? {
      assert [Fill] + AnswerValues(you, init) == [Fill, dhs[0], dhs[1], dhs[2]] + [Dh(you.pool[init.preKeyId.value], init.ephemeral)];
    } else {
      assert [Fill] + AnswerValues(you, init) == [Fill, dhs[0], dhs[1], dhs[2]] + [];
    }
  }

  /** The holder's secrets are those behind the keys that a start used. */
  ghost predicate OwnsUsedKeys(you: Holder, bundle: Bundle, preKey: Option<OfferedPreKey>) {
    && bundle.identityX == Public(you.identity.x) && bundle.signedPreKey == Public(you.signedPreKey)
    && bundle.kyber == you.identity.kyber
    && (preKey.Some? ==> preKey.value.id in you.pool && preKey.value.public == Public(you.pool[preKey.value.id]))
  }

  /** Equal root keys on the two ends mean that the responder holds the secrets the bundle promises. */
  lemma SameRootMeansOwnership(me: Identity, bundle: Bundle, choices: Choices, you: Holder, init: InitMessage)
    requires ValidBundle(bundle) && init.identityX == Public(me.x) && init.ephemeral == Public(choices.ephemeral)
    requires var preKey := ChosenPreKey(bundle, choices.draw);
             && init.preKeyId == (match preKey case None => None case Some(k) => Some(k.id))
             && (preKey.Some? ==> preKey.value.public.Public? && preKey.value.id in you.pool)
    requires RootOver(StartValues(me, bundle, choices), Encapsulated(bundle.kyber, choices.coins))
          == RootOver(AnswerValues(you, init), Decapsulate(you.identity.kyber, init.ciphertext))
    ensures OwnsUsedKeys(you, bundle, ChosenPreKey(bundle, choices.draw))
  {
    var e, preKey := choices.ephemeral, ChosenPreKey(bundle, choices.draw);
    var dhs, dhs' := StartValues(me, bundle, choices), AnswerValues(you, init);
    RootDeterminesValues(dhs, Encapsulated(bundle.kyber, choices.coins), dhs', Decapsulate(you.identity.kyber, init.ciphertext));
    assert dhs[1] == dhs'[1] && dhs[2] == dhs'[2];
    DhCommutes(you.identity.x, e);
    DhDeterminesPartner(e, bundle.identityX.scalar, you.identity.x);
    DhCommutes(you.signedPreKey, e);
    DhDeterminesPartner(e, bundle.signedPreKey.scalar, you.signedPreKey);
    if preKey.Some? {
      assert dhs[3] == dhs'[3];
      DhCommutes(you.pool[preKey.value.id], e);
      DhDeterminesPartner(e, preKey.value.public.scalar, you.pool[preKey.value.id]);
    }
  }

  /** Two starts against one bundle with one root key have the same identity key, ephemeral, prekey and coins. */
  lemma RootDeterminesStart(codec: Codec, bundle: Bundle, me: Identity, maxMessages: U32, choices: Choices,
                            me': Identity, maxMessages': U32, choices': Choices)
    requires Start(codec, me, bundle, maxMessages, choices).Ok? && Start(codec, me', bundle, maxMessages', choices').Ok?
    requires Start(codec, me, bundle, maxMessages, choices).value.session.keys.root
          == Start(codec, me', bundle, maxMessages', choices').value.session.keys.root
    ensures me.x == me'.x && choices.ephemeral == choices'.ephemeral && choices.coins == choices'.coins
    ensures var k, k' := ChosenPreKey(bundle, choices.draw), ChosenPreKey(bundle, choices'.draw);
            k.Some? == k'.Some? && (k.Some? ==> k.value.public == k'.value.public)
  {
    StartRoot(codec, me, bundle, maxMessages, choices);
    StartRoot(codec, me', bundle, maxMessages', choices');
    ValuesDetermineStart(bundle, me, choices, me', choices');
  }

  lemma ValuesDetermineStart(bundle: Bundle, me: Identity, choices: Choices, me': Identity, choices': Choices)
    requires ValidBundle(bundle)
    requires forall c | c in [choices, choices'] ::
               ChosenPreKey(bundle, c.draw).Some? ==> ChosenPreKey(bundle, c.draw).value.public.Public?
    requires RootOver(StartValues(me, bundle, choices), Encapsulated(bundle.kyber, choices.coins))
          == RootOver(StartValues(me', bundle, choices'), Encapsulated(bundle.kyber, choices'.coins))
    ensures me.x == me'.x && choices.ephemeral == choices'.ephemeral && choices.coins == choices'.coins
    ensures var k, k' := ChosenPreKey(bundle, choices.draw), ChosenPreKey(bundle, choices'.draw);
            k.Some? == k'.Some? && (k.Some? ==> k.value.public == k'.value.public)
  {
    var dhs, dhs' := StartValues(me, bundle, choices), StartValues(me', bundle, choices');
    RootDeterminesValues(dhs, Encapsulated(bundle.kyber, choices.coins), dhs', Encapsulated(bundle.kyber, choices'.coins));
    var spk := bundle.signedPreKey.scalar;
    assert choices in [choices, choices'] && choices' in [choices, choices'];
    assert dhs[0] == dhs'[0] && dhs[2] == dhs'[2];
    DhCommutes(me.x, spk);
    DhCommutes(me'.x, spk);
    DhDeterminesPartner(spk, me.x, me'.x);
    DhCommutes(choices.ephemeral, spk);
    DhCommutes(choices'.ephemeral, spk);
    DhDeterminesPartner(spk, choices.ephemeral, choices'.ephemeral);
    var k, k' := ChosenPreKey(bundle, choices.draw), ChosenPreKey(bundle, choices'.draw);
    assert |dhs| == if k.Some? then 4 else 3;
    assert |dhs'| == if k'.Some? then 4 else 3;
    if k.Some? {
      assert dhs[3] == dhs'[3];
      DhDeterminesPartner(choices.ephemeral, k.value.public.scalar, k'.value.public.scalar);
    }
  }

  /** Either confirmation code alone ties the two ends together. */
  lemma CodesTieSessions(codec: Codec, bundle: Bundle, s: Initiator, bundle': Bundle, init': InitMessage, r: Response)
    requires Faithful(codec) && StartedWith(codec, bundle, s) && AnsweredWith(codec, bundle', init', r)
    requires init'.mac == s.init.mac || r.ack.mac == s.expectedAck
    ensures bundle' == bundle && init' == s.init && Mirrored(s.session, r.session) && Finish(s, r.ack) == Ok(s.session)
  {
    TranscriptsAgree(codec, bundle, s.init, bundle', init');
  }

  /**
   An initiator that accepts an acknowledgement agrees with the responder that made it on the whole
   bundle, on the whole init message and on every key.
   */
  lemma AcceptedAckMeansAgreement(codec: Codec, me: Identity, bundle: Bundle, maxMessages: U32, choices: Choices,
                                  you: Holder, bundle': Bundle, init': InitMessage, maxMessages': U32)
    requires Faithful(codec)
    requires Start(codec, me, bundle, maxMessages, choices).Ok?
    requires Process(codec, you, bundle', init', maxMessages').Ok?
    requires var started := Start(codec, me, bundle, maxMessages, choices).value;
             Finish(started, Process(codec, you, bundle', init', maxMessages').value.ack).Ok?
    ensures var started := Start(codec, me, bundle, maxMessages, choices).value;
            var answer := Process(codec, you, bundle', init', maxMessages').value;
            && bundle' == bundle && init' == started.init && maxMessages' == maxMessages
            && Mirrored(started.session, answer.session)
            && OwnsUsedKeys(you, bundle, ChosenPreKey(bundle, choices.draw))
  {
    StartShape(codec, me, bundle, maxMessages, choices);
    AnswerShape(codec, you, bundle', init', maxMessages');
    CodesTieSessions(codec, bundle, Start(codec, me, bundle, maxMessages, choices).value,
                     bundle', init', Process(codec, you, bundle', init', maxMessages').value);
    StartRoot(codec, me, bundle, maxMessages, choices);
    AnswerRoot(codec, you, bundle', init', maxMessages');
    SameRootMeansOwnership(me, bundle, choices, you, init');
  }

  /**
   A responder that accepts an init message carrying the confirmation code of an initiator agrees with
   that initiator on the whole bundle, on the whole init message and on every key, and its
   acknowledgement is accepted.
   */
  lemma AcceptedInitMeansAgreement(codec: Codec, me: Identity, bundle: Bundle, maxMessages: U32, choices: Choices,
                                   you: Holder, bundle': Bundle, init': InitMessage, maxMessages': U32)
    requires Faithful(codec)
    requires Start(codec, me, bundle, maxMessages, choices).Ok?
    requires Process(codec, you, bundle', init', maxMessages').Ok?
    requires init'.mac == Start(codec, me, bundle, maxMessages, choices).value.init.mac
    ensures var started := Start(codec, me, bundle, maxMessages, choices).value;
            var answer := Process(codec, you, bundle', init', maxMessages').value;
            && bundle' == bundle && init' == started.init && maxMessages' == maxMessages
            && Mirrored(started.session, answer.session)
            && Finish(started, answer.ack) == Ok(started.session)
            && OwnsUsedKeys(you, bundle, ChosenPreKey(bundle, choices.draw))
  {
    StartShape(codec, me, bundle, maxMessages, choices);
    AnswerShape(codec, you, bundle', init', maxMessages');
    CodesTieSessions(codec, bundle, Start(codec, me, bundle, maxMessages, choices).value,
                     bundle', init', Process(codec, you, bundle', init', maxMessages').value);
    StartRoot(codec, me, bundle, maxMessages, choices);
    AnswerRoot(codec, you, bundle', init', maxMessages');
    SameRootMeansOwnership(me, bundle, choices, you, init');
  }

  // ----- What the checks ensure -----

  /** A start uses only an X25519 identity and a signed prekey that the bundle's own identity has signed. */
  lemma StartedBundleIsSigned(codec: Codec, me: Identity, bundle: Bundle, maxMessages: U32, choices: Choices)
    requires Start(codec, me, bundle, maxMessages, choices).Ok?
    ensures bundle.identityXSignature == Signed(bundle.identityEd, KeyOf(bundle.identityX))
    ensures bundle.signedPreKeySignature == Signed(bundle.identityEd, KeyOf(bundle.signedPreKey))
    ensures bundle.version == 2 && bundle.identityEd != me.ed && 0 < maxMessages <= 10000 && |bundle.oneTimePreKeys| <= 4096
  {
  }

  /**
   A responder accepts only an init of another identity for its own limit, and one binding signature
   admits only one signer with one X25519 identity and one ML-KEM key.
   */
  lemma AcceptedInitIsBound(codec: Codec, you: Holder, bundle: Bundle, init: InitMessage, maxMessages: U32,
                            you': Holder, bundle': Bundle, init': InitMessage, maxMessages': U32)
    requires Process(codec, you, bundle, init, maxMessages).Ok? && Process(codec, you', bundle', init', maxMessages').Ok?
    ensures init.version == 2 && init.identityEd != bundle.identityEd && init.maxMessages == maxMessages <= 10000
    ensures init.bindingSignature == Signed(init.identityEd, Binding(init.identityEd, init.identityX, init.kyber))
    ensures init.bindingSignature == init'.bindingSignature ==>
              init.identityEd == init'.identityEd && init.identityX == init'.identityX && init.kyber == init'.kyber
  {
    AcceptedInitIsValid(codec, you, bundle, init, maxMessages);
    AcceptedInitIsValid(codec, you', bundle', init', maxMessages');
  }

  lemma AcceptedInitIsValid(codec: Codec, you: Holder, bundle: Bundle, init: InitMessage, maxMessages: U32)
    requires Process(codec, you, bundle, init, maxMessages).Ok?
    ensures ValidInit(init) && ValidLimit(maxMessages) && init.identityEd != bundle.identityEd && init.maxMessages == maxMessages
  {
  }

  /** The one acknowledgement that finishes a start. */
  lemma FinishAcceptsExactly(s: Initiator, ack: Ack)
    ensures Finish(s, ack) == Ok(s.session) <==> ack == Ack(2, s.expectedAck)
    ensures Finish(s, ack).Ok? ==> Finish(s, ack).value == s.session
  {
  }

  /** The five keys of a session are pairwise different, so no code confirms the other direction. */
  lemma SessionKeysDiffer(codec: Codec, bundle: Bundle, s: Initiator)
    requires StartedWith(codec, bundle, s)
    ensures NoDuplicates([s.session.keys.root, s.session.keys.sessionId, s.session.keys.metadata,
                          s.session.keys.confirmInit, s.session.keys.confirmResponse])
    ensures s.init.mac != s.expectedAck
  {
    InfosDiffer();
    var k := s.session.keys;
    var all := [k.root, k.sessionId, k.metadata, k.confirmInit, k.confirmResponse];
    assert forall i | 0 <= i < |all| :: all[i].Kdf? && all[i].info == INFOS[i];
  }

  const INFOS := ["Aura-Hybrid-X3DH", "Aura-SessionId", "Aura-MetadataKey", "Aura-KeyConfirm-I", "Aura-KeyConfirm-R"]

  lemma InfosDiffer()
    ensures NoDuplicates(INFOS)
  {
    assert INFOS[0][5] != INFOS[2][5] && INFOS[3][16] != INFOS[4][16];
    assert |INFOS[0]| == |INFOS[2]| == 16 && |INFOS[1]| == 14 && |INFOS[3]| == |INFOS[4]| == 17;
  }

  /** One session id stands for one root key and one ciphertext. */
  lemma SessionIdDetermines(codec: Codec, bundle: Bundle, s: Initiator, bundle': Bundle, s': Initiator)
    requires StartedWith(codec, bundle, s) && StartedWith(codec, bundle', s')
    requires s.session.keys.sessionId == s'.session.keys.sessionId
    ensures s.session.keys.root == s'.session.keys.root && s.init.ciphertext == s'.init.ciphertext
  {
  }
}

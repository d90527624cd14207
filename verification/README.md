# Verified model of the Aura protocol core

A Dafny model of the hardest parts of the Aura protected protocol, with proofs of what they promise.
`dafny verify dfyconfig.toml` checks the whole project.

## What is modelled

- **Secret sharing** (`Fields`, `Generators`, `Polynomials`, `Gf256`, `Shamir`). The exponent and
  logarithm tables, the branch-free byte arithmetic, Horner evaluation, masked interpolation, splitting
  and reconstruction. The tables are proved to give the field of FIPS 197, reconstruction to undo
  splitting, and fewer shares than the threshold to be consistent with every secret equally.
- **Call relay** (`VoipRelay`, `VoipLifecycle`, `VoipInterleaving`). Workers read a call record, compute
  its successor and compare-exchange it with a bounded retry. Every interleaving is linearizable, and
  the forwarded signals of a call follow its grammar.
- **Group roster** (`Roster`, `RosterCommits`). Validation of commits and their all-or-nothing
  application, over every run from one creator.
- **Replay protection** (`ReplayCache`, `ReplayRuns`, `Reservations`, `PreKeys`, `Responder`,
  `ResponderRuns`, `SealedReplay`). The bounded fingerprint cache, the two-party reservation with its
  rollback, one-time prekeys, the order in which a responder consumes and commits, and sealed export
  and restore.
- **Key agreement** (`Handshake`). Both sides of the hybrid X3DH handshake over a free term algebra:
  honest runs meet, and an accepted acknowledgement means agreement.
- **Attachments** (`Streaming`, `StreamingRuns`, `ChunkProgress`). The chunking encryptor and decryptor,
  the size relation of a manifest, and the progress bitmap.
- **Secure memory** (`SecureRegion`, `SecurePool`). The two-class slot allocator and its handles.
- **Sealed slot and padding** (`LittleEndian`, `SealedSlot`, `Padding`). The anti-rollback record with
  its codec, and constant-time removal of padding.

`Outcomes` holds the error type; `Arithmetic`, `Sequences` and `Octets` hold the counting, filtering and
byte facts the others share.

Objects that the source updates in place are classes whose methods are specified by functions on a
snapshot of their state; the theorems over whole runs are about those functions. Random draws, the
clock, guard and store failures and the verdicts of cryptographic checks are parameters.

## Findings

Where a statement one might expect does not hold, the model keeps what the code does, shows a case,
and proves when the statement does hold.

- A guard reservation outlives a failed `reserve` exactly when the local cache failed before answering
  or the release failed (`Reservations.Reservation.Reserve`); a full in-flight set is a case
  (`Reservations.ReservationOutlivesFullFlight`).
- A commit that the guard refuses costs the cache its oldest fingerprint exactly when the queue is full
  (`Reservations.RefusedCommitCostsTheOldest`, with a case in `Reservations.RefusedCommitOnFullQueue`).
- Replenishing avoids only ids that are still pooled, so it can draw the id of a consumed seed key; a
  rebuild from the seed then restores that key, and exactly then
  (`SealedReplay.ConsumedKeysReturnIffShadowed`, with a case in `SealedReplay.ServedKeyCanReturn`).
- The comment on `ct_gt_mask` promises `a > b` for all words; it holds exactly within half the word
  range, which every buffer length is (`Padding.GtMaskIsExactWithinHalfRange`, with a case in
  `Padding.GtMaskFailsFarApart`).
- A failed `write` does not hand out the chunks it had already made in that call: some are lost exactly
  when the write does not fit and the budget was not spent before
  (`Streaming.StreamingEncryptor.Write`, with a case in `Streaming.SecondByteLosesFirstChunk`).

## Model

| member | source | states |
|---|---|---|
| `Gf256.BuildExpTable` | src/crypto/shamir_secret_sharing.rs:19-33 | the loop fills all 512 entries with the powers of 3, and the 16-bit reduction never leaves the byte range |
| `Gf256.BuildLogTable` | src/crypto/shamir_secret_sharing.rs:35-45 | every nonzero byte is found at its discrete logarithm; entry 0 stays 0 |
| `Gf256.GeneratorIsPrimitive` | src/crypto/shamir_secret_sharing.rs:15-45 | the powers of 3 modulo 0x11B are 255 distinct bytes and reach every nonzero byte, so the logarithm table is total |
| `Gf256.ExpOnto` | src/crypto/shamir_secret_sharing.rs:19-45 | every nonzero byte is a power of the generator below 255 |
| `Gf256.MulWithIsTimes` | src/crypto/shamir_secret_sharing.rs:47-53 | with the real tables the masked product is zero on a zero factor and otherwise the power at the sum of the logarithms |
| `Gf256.MaskSelects` | src/crypto/shamir_secret_sharing.rs:47-60 | the arithmetic zero mask is all ones exactly on the zero byte, so the branch-free selection is the conditional it replaces |
| `Gf256.MulIsFieldMultiplication` | src/crypto/shamir_secret_sharing.rs:47-53 | table multiplication equals the shift-and-reduce product of section 4.2 of FIPS 197 on all pairs of bytes |
| `Gf256.ByteFieldIsField` | src/crypto/shamir_secret_sharing.rs:47-60 | bytes under exclusive or and the table operations satisfy every field law, with the table inverse as inverse |
| `Polynomials.TooManyRoots` | src/crypto/shamir_secret_sharing.rs:62-68 | a polynomial that vanishes at as many distinct points as it has coefficients has only zero coefficients |
| `Polynomials.UniqueFit` | src/crypto/shamir_secret_sharing.rs:62-94 | two coefficient lists of the same length that agree on that many distinct points are equal |
| `Polynomials.InterpolationRecovers` | src/crypto/shamir_secret_sharing.rs:70-94 | Lagrange interpolation through at least as many distinct samples as coefficients evaluates the sampled polynomial at every point |
| `Polynomials.ExactlyOneFit` | src/crypto/shamir_secret_sharing.rs:133-146 | for every constant term there is exactly one choice of the other coefficients through given values at distinct nonzero points |
| `Shamir.EvaluatePolynomial` | src/crypto/shamir_secret_sharing.rs:62-68 | the Horner loop computes the value of the polynomial |
| `Shamir.MaskedStep` | src/crypto/shamir_secret_sharing.rs:82-89 | one masked step of the product multiplies both factors for another index and leaves them alone for the own index |
| `Shamir.LagrangeTerm` | src/crypto/shamir_secret_sharing.rs:79-91 | the inner loop and the division compute one Lagrange basis term times its sample |
| `Shamir.LagrangeInterpolate` | src/crypto/shamir_secret_sharing.rs:70-94 | fails exactly on lists of unequal length; otherwise the result is the Lagrange sum |
| `Shamir.PushColumn` | src/crypto/shamir_secret_sharing.rs:139-144 | one pass over the shares appends to each the value of the current byte polynomial at its coordinate |
| `Shamir.Split` | src/crypto/shamir_secret_sharing.rs:99-155 | succeeds exactly on admissible parameters and returns the share of every coordinate, header and polynomial values, followed by the tag of the secret |
| `Shamir.CheckFormat` | src/crypto/shamir_secret_sharing.rs:184-188 | accepts exactly shares of one length that start with the magic bytes |
| `Shamir.CheckDistinct` | src/crypto/shamir_secret_sharing.rs:198-206 | accepts exactly pairwise distinct coordinates, through a table of flags |
| `Shamir.InterpolateAll` | src/crypto/shamir_secret_sharing.rs:208-214 | interpolates every byte column at zero |
| `Shamir.Reconstruct` | src/crypto/shamir_secret_sharing.rs:157-226 | succeeds exactly when count, sizes, headers and coordinates pass and the tag is that of the interpolated bytes, and returns the interpolation of every column |
| `Shamir.SelectionInterpolates` | src/crypto/shamir_secret_sharing.rs:133-226 | at least threshold distinct shares of a split, in any order, interpolate to the secret |
| `Shamir.SplitThenReconstruct` | src/crypto/shamir_secret_sharing.rs:99-226 | over any field of bytes, any such selection followed by its tag makes reconstruction return the secret |
| `Shamir.RoundTrip` | src/crypto/shamir_secret_sharing.rs:19-226 | the same for the byte field of the tables: every secret, threshold, share count, coefficient choice and selection |
| `Shamir.ExactlyOneFitPerByte` | src/crypto/shamir_secret_sharing.rs:62-68 | for any distinct nonzero coordinates fewer than the threshold and any observed values, every candidate secret has exactly one fitting coefficient choice |
| `Shamir.PerfectSecrecy` | src/crypto/shamir_secret_sharing.rs:133-146 | whatever threshold - 1 shares are seen, every candidate secret of that length explains them under exactly one coefficient choice, over any field of bytes |
| `Shamir.ByteSharesArePerfectlySecret` | src/crypto/shamir_secret_sharing.rs:133-146 | the secrecy theorem for the field the code computes in |
| `VoipRelay.CallStore.CompareExchange` | src/api/relay.rs:1124-1136 | swaps exactly when the record still equals the expected one and changes nothing otherwise |
| `VoipRelay.CallStore.ProcessSignal` | src/api/relay.rs:1173-1335 | with the store replaced by arbitrary other stores between any two of its accesses: the call loses exactly the passes whose record changes between read and exchange, is the indivisible transition on the store of the first pass it does not lose, and gives up without change exactly when it loses all eight; undisturbed it is that transition on the store it meets |
| `VoipRelay.CallStore.ProcessInit` | src/api/relay.rs:1180-1194 | an initial signal is the indivisible insertion on the store it meets |
| `VoipRelay.CallStore.Pass` | src/api/relay.rs:1197-1330 | one pass succeeds exactly when the record at the exchange is the one read or the signal is refused |
| `VoipRelay.DecideKeepsGoodCall` | src/api/relay.rs:1152-1171 | a pass over a well-formed record proposes a well-formed record, answers the other participant, and removes the record exactly on a removing action |
| `VoipRelay.AtomicKeepsGoodStore` | src/api/relay.rs:1046-1335 | every transition keeps caller and callee different, no stored record ended, and a pending rekey initiator (a participant) exactly while rekeying |
| `VoipRelay.ForwardsToPeer` | src/api/relay.rs:1087-1095 | a forwarded signal goes to the recipient, who is not the sender, and the action removes the call exactly when the record is gone |
| `VoipRelay.WhoMayAnswer` | src/api/relay.rs:1173-1335 | only the callee accepts or rejects an initiated call, and only the peer of the pending rekey initiator acknowledges |
| `VoipRelay.OtherCallsUntouched` | src/api/relay.rs:1173-1335 | a signal never changes the record of another call |
| `VoipRelay.AcceptedExactlyWhen` | src/api/relay.rs:1087-1335 | a signal is forwarded exactly when it runs between the participants, the call is at most a day old and idle for at most 30 seconds while ringing or 300 afterwards, and its state, sender and pending rekey fit |
| `VoipRelay.AcceptanceTouches` | src/api/relay.rs:1069-1116 | a record left by a signal carries its time, keeps participants and start, and is in the state of the signal |
| `VoipRelay.RefusalsAndExpiry` | src/api/relay.rs:1197-1203 | a signal between the participants of an expired call removes the record; every other refusal changes nothing |
| `VoipLifecycle.PassTracks` | src/api/relay.rs:1173-1335 | one accepted pass extends the forwarded word of a record by exactly its signal |
| `VoipLifecycle.StepKeepsConsistent` | src/api/relay.rs:1173-1335 | every transition, also an expiry or a refusal, keeps record and forwarded word in step |
| `VoipLifecycle.ForwardedSignalsConverse` | src/api/relay.rs:1046-1335 | from an empty store the signals forwarded for one record form a prefix of Init (Reject, End, or Accept (Rekey Ack)* [Rekey] End), and the generation counts the acknowledgements |
| `VoipInterleaving.ExchangeKeepsInvariant` | src/api/relay.rs:1131-1136 | a compare-exchange that succeeds on a record equal to the one read is the indivisible transition on the store at that moment, also if the record changed and changed back |
| `VoipInterleaving.StepKeepsInvariant` | src/api/relay.rs:1173-1335 | every step of every worker keeps the store equal to the effects so far, the answers atomic and the history well ordered |
| `VoipInterleaving.Linearizable` | src/api/relay.rs:1118-1335 | in every interleaving the store is the result of the effects one at a time, every answer is the one of its own transition, and a call that gives up has had no effect |
| `VoipInterleaving.GivingUpNeedsContention` | src/api/relay.rs:1196-1335 | in every run a call that reports contention has lost eight exchanges, and since its read before each of them another worker had changed the record |
| `VoipInterleaving.ConcurrentRunsConverse` | src/api/relay.rs:1046-1335 | the grammar and the record invariant hold in every interleaving from an empty store |
| `Roster.FindMember` | src/api/relay.rs:44-46 | finds a member exactly when a leaf is taken |
| `Roster.RemoveLeaves` | src/api/relay.rs:560-567 | the removal loop succeeds exactly when the removals are distinct leaves that are present, and keeps exactly the others |
| `Roster.SwapRemove` | src/api/relay.rs:612 | striking out by swap-removal takes exactly one occurrence away |
| `Roster.StrikeOut` | src/api/relay.rs:608-617 | finds an expected identity if there is one and strikes out one occurrence |
| `Roster.Occupied` | src/api/relay.rs:570-575 | the two sets hold exactly the leaves and identities of the kept members |
| `Roster.MatchOne` | src/api/relay.rs:592-633 | one record passes only if it extends the match, and a refusal means that no match exists |
| `Roster.MatchAdditions` | src/api/relay.rs:591-641 | the loop succeeds exactly when the records are well formed, bring only new leaves and identities, and their identities are the proposed multiset |
| `Roster.GroupRoster.constructor` | src/api/relay.rs:36-42 | a new roster is the creator at epoch 0 |
| `Roster.GroupRoster.Apply` | src/api/relay.rs:543-647 | applies exactly when epoch, removals, size and additions fit; the result is the kept members and the additions at the next epoch; a failure changes nothing |
| `RosterCommits.ValidateJoinStructure` | src/api/relay.rs:315-372 | accepts exactly one external init with authorization and exactly one addition |
| `RosterCommits.ContainsJoin` | src/api/relay.rs:179-184 | tells whether a commit is an external join |
| `RosterCommits.CheckAuthorization` | src/api/relay.rs:257-313 | accepts exactly an authorization of the right version for this group, this epoch and this joiner, signed by the member at the named leaf |
| `RosterCommits.SenderIdentity` | src/api/relay.rs:175-313 | returns the one identity that must have signed and the kind of commit, and fails exactly when no sender is admissible |
| `RosterCommits.CollectChanges` | src/api/relay.rs:127-163 | collects the additions and removals in order, failing exactly on a bad addition, an absent leaf or the removal of the committer |
| `RosterCommits.ValidateCommit` | src/api/relay.rs:74-173 | accepts exactly the valid commits, with the information read from their proposals |
| `RosterCommits.AuthorizedJoinIsValid` | src/api/relay.rs:200-313 | every joiner with a valid key package whom a current member authorizes for the current epoch is accepted at a free leaf, as sender, with the proposals in either order |
| `RosterCommits.JoinersAreAuthorized` | src/api/relay.rs:200-313 | every accepted join carries an authorization for this group, epoch and joiner signed by a current member, and adds exactly that joiner |
| `RosterCommits.AuthorizationIsForOneJoin` | src/api/relay.rs:272-293 | joins accepted with one authorization are into one group at one epoch by one identity with one X25519 key and credential |
| `RosterCommits.ValidCommitLeavesSomeone` | src/api/relay.rs:127-163 | a valid commit never removes its committer, and a join adds exactly one member |
| `RosterCommits.StandardCommitterStays` | src/api/relay.rs:74-173 | the record of a standard committer is still in the roster afterwards |
| `RosterCommits.ApplyKeepsGood` | src/api/relay.rs:543-647 | leaves and identities stay distinct and the size stays between 1 and 1024 |
| `RosterCommits.RosterEvolves` | src/api/relay.rs:543-647 | over every run of validated and applied commits from one creator the roster is good and its epoch is the number of applied commits |
| `RosterCommits.MembershipChange` | src/api/relay.rs:543-647 | afterwards the members are exactly the old ones not named by a removal and the additions, whose identities are the proposed ones |
| `ReplayCache.EvictOldest` | src/identity/identity_keys.rs:856-861 | the eviction loop keeps the newest entries up to the bound, and the set stays the contents of the queue |
| `ReplayCache.Cache.constructor` | src/identity/identity_keys.rs:64-96 | a new cache is empty |
| `ReplayCache.Cache.Reserve` | src/identity/identity_keys.rs:798-828 | errors exactly on a wrong size or a full in-flight set; otherwise answers whether the fingerprint is new and, if so, reserves it |
| `ReplayCache.Cache.Remember` | src/identity/identity_keys.rs:830-864 | moves a fingerprint from flight to the end of the queue unless it is queued already, within the bound |
| `ReplayCache.Cache.Release` | src/identity/identity_keys.rs:866-873 | takes a fingerprint out of flight and touches nothing else |
| `ReplayCache.Cache.Forget` | src/identity/identity_keys.rs:875-896 | takes a fingerprint out of flight, out of the set and out of the queue |
| `ReplayCache.Cache.Reload` | src/identity/identity_keys.rs:762-769 | replaces set and queue by a restored list |
| `ReplayRuns.RunKeepsSound` | src/identity/identity_keys.rs:798-896 | in every run without restore the queue has no duplicates and at most 16384 entries, all of 32 bytes, disjoint from at most 4096 in flight |
| `ReplayRuns.WaitsThroughRun` | src/identity/identity_keys.rs:830-896 | a newly remembered fingerprint keeps its place, with only later remembered ones behind it |
| `ReplayRuns.RefusedUntilDisplaced` | src/identity/identity_keys.rs:798-864 | a remembered, unforgotten fingerprint is refused after every run that remembers fewer than 16384 other fingerprints |
| `ReplayRuns.DisplacedByFullTurn` | src/identity/identity_keys.rs:850-861 | the bound is exact: 16384 new fingerprints displace everything that was queued |
| `Reservations.Guard.Reserve` | src/protocol/handshake.rs:754-756 | a guard that answers reserves exactly an unknown fingerprint |
| `Reservations.Guard.Commit` | src/protocol/handshake.rs:758-760 | a guard that answers makes the marker durable; an error leaves it releasable |
| `Reservations.Guard.Release` | src/protocol/handshake.rs:762-764 | a guard that answers drops the reservation and nothing else |
| `Reservations.Reservation.constructor` | src/protocol/handshake.rs:808-816 | a reservation starts held locally and, with a guard, remotely |
| `Reservations.Reservation.ReserveAtGuard` | src/protocol/handshake.rs:783-790 | succeeds exactly when the guard answers that the fingerprint is new |
| `Reservations.Reservation.Reserve` | src/protocol/handshake.rs:778-817 | succeeds exactly when guard and cache grant it; a failure leaves the cache as it was, and the guard either as it was, with one release on record, or holding a reservation exactly when the cache failed before answering or the release failed |
| `Reservations.ReservationOutlivesFullFlight` | src/protocol/handshake.rs:794 | with a full in-flight set and every service up, `reserve` fails and the guard is left holding the reservation |
| `Reservations.Reservation.Drop` | src/protocol/handshake.rs:855-876 | a committed reservation does nothing; any other gives back what its flags say is held |
| `Reservations.Reservation.RollBack` | src/protocol/handshake.rs:827-845 | forgets locally and releases at the guard exactly once unless both attempts fail |
| `Reservations.Reservation.Commit` | src/protocol/handshake.rs:819-853 | either remembered locally and committed at the guard, or in neither local set and released at the guard exactly once unless both attempts fail |
| `Reservations.RefusedCommitCostsTheOldest` | src/protocol/handshake.rs:819-853 | after a commit the guard refuses, the others are untouched if and only if the queue had room; a full queue has lost its oldest entry |
| `Reservations.RefusedCommitOnFullQueue` | src/protocol/handshake.rs:819-853 | a full queue whose front entry is gone after a refused commit |
| `PreKeys.PickId` | src/identity/identity_keys.rs:1216-1224 | returns the first of at most 64 candidates that is not used, and none exactly when all are used |
| `PreKeys.CandidatesAreSpread` | src/identity/identity_keys.rs:1219 | candidates are the words shifted by 2, distinct below the modulus |
| `PreKeys.GenerateExcluding` | src/identity/identity_keys.rs:1203-1233 | every id is the first unused candidate of its index; the failure is at the first index whose 64 candidates are all used |
| `PreKeys.ChosenAreDistinct` | src/identity/identity_keys.rs:1203-1233 | ids chosen that way are pairwise distinct and avoid the reserved ones |
| `PreKeys.GenerateFromSeed` | src/identity/identity_keys.rs:1235-1270 | succeeds exactly when the seed ids are distinct, with ids at least 2 and the secrets of the second half of the seed indices |
| `PreKeys.RetainedContents` | src/identity/identity_keys.rs:753-760 | filtering by id keeps exactly the listed keys and keeps ids and secrets distinct |
| `PreKeys.RemovalRetainsOthers` | src/identity/identity_keys.rs:592-597 | removing at the position found keeps exactly the keys with other ids |
| `Responder.IdentityKeys.constructor` | src/identity/identity_keys.rs:64-96 | an identity starts with its generated keys and an empty cache |
| `Responder.IdentityKeys.FindSecret` | src/identity/identity_keys.rs:533-549 | finds the secret of the key asked for exactly when its id is pooled |
| `Responder.IdentityKeys.Consume` | src/identity/identity_keys.rs:586-616 | removes exactly the key asked for, and fails exactly when it is not pooled |
| `Responder.IdentityKeys.Replenish` | src/identity/identity_keys.rs:555-578 | adds fresh keys whose ids avoid those still pooled, or changes nothing |
| `Responder.IdentityKeys.Proceed` | src/protocol/handshake.rs:937-1291 | after the reservation: accepted exactly when all checks pass and the guard commits; the key is consumed before the commit; every failure gives the reservation back locally and, unless the calls fail, at the guard exactly once |
| `Responder.IdentityKeys.Respond` | src/protocol/handshake.rs:918-1291 | accepted exactly when guard, cache, pool and checks allow it; a failure changes the identity only if everything but the guard commit had succeeded, and the state of the guard after it is given exactly, with the condition under which it still holds the fingerprint |
| `ResponderRuns.RespondStep` | src/protocol/handshake.rs:918-1291 | every call of the responder is a step of the runs below: accepted, undone by the guard, or without effect; the secret used is the one the run records |
| `ResponderRuns.ReplenishStep` | src/identity/identity_keys.rs:555-578 | a replenishment that succeeds is a step of the runs below, and one that fails is none |
| `ResponderRuns.EachPreKeyServesOnce` | src/identity/identity_keys.rs:555-616 | in every run of handshakes, replenishments and restores, pooled ids stay distinct and at least 2, and no key serves two accepted handshakes |
| `ResponderRuns.AcceptedAgainOnlyAfterFullTurn` | src/protocol/handshake.rs:918-1291 | between two acceptances of one fingerprint without a restore, handshakes with at least 16384 other fingerprints were queued |
| `SealedReplay.Export` | src/identity/identity_keys.rs:629-676 | the blob holds the header and the sealed ids and queue; fails exactly on a wrong key size |
| `SealedReplay.Restore` | src/identity/identity_keys.rs:685-772 | succeeds exactly when the blob opens; then keys and queue are the filtered ones, and a failure changes nothing |
| `SealedReplay.OpensExactlyWhen` | src/identity/identity_keys.rs:685-751 | a byte string restores a state exactly when key size, version, counter, authenticated text, identity and fingerprints pass, field by field |
| `SealedReplay.OpensOnlyForItsOwner` | src/identity/identity_keys.rs:685-772 | a blob opens exactly under its own key, for its own identity and for a minimum not above its counter, and then gives back its state |
| `SealedReplay.ChangedCounterIsRejected` | src/identity/identity_keys.rs:708-722 | a blob with another counter in its header is rejected for every key, identity and minimum |
| `SealedReplay.RebuildKeepsProtection` | src/identity/identity_keys.rs:685-772 | after export, rebuild from the seed and restore, every remembered fingerprint is refused, and the pool is exactly the seed keys whose ids were still pooled |
| `SealedReplay.ConsumedKeysReturnIffShadowed` | src/identity/identity_keys.rs:753-760 | a seed key that had left the pool returns with the rebuild if and only if a replenished key was pooled under a seed id |
| `SealedReplay.RunKeepsFromSeed` | src/identity/identity_keys.rs:555-616 | every run from the seed keys keeps the pooled derived keys among them, so the condition above applies to every run |
| `SealedReplay.ServedKeyCanReturn` | src/identity/identity_keys.rs:555-578 | a concrete run in which a key serves a handshake, its id is drawn again by a replenishment, and the rebuild holds the key |
| `Handshake.DhCommutes` | src/protocol/handshake.rs:51-78 | two scalars and their public keys give one value |
| `Handshake.DhDeterminesPartner` | src/protocol/handshake.rs:51-78 | equal values of one secret come from equal partners |
| `Handshake.ValidBundleIsShort` | src/protocol/handshake.rs:193-246 | the field sizes and the limit on one-time prekeys keep the encoding of every valid bundle below 192 KiB |
| `Handshake.FramedIsUnique` | src/protocol/handshake.rs:80-107 | the length-prefixed transcript determines bundle and init bytes, if the bundle is below 4 GiB |
| `Handshake.EveryLongerFieldCollides` | src/protocol/handshake.rs:93-101 | every first field of 4 GiB or more shares a transcript with a shorter one |
| `Handshake.SeparatedIffShort` | src/protocol/handshake.rs:93-101 | so the 32-bit prefix separates a first field from the shorter ones if and only if it is below 4 GiB, as every valid bundle is |
| `Handshake.ContextIsSymmetric` | src/protocol/handshake.rs:121-135 | the metadata context does not depend on the side that builds it |
| `Handshake.ContextDetermines` | src/protocol/handshake.rs:121-135 | a metadata context determines the session id and the unordered pair of keys |
| `Handshake.StartSucceedsIff` | src/protocol/handshake.rs:373-701 | an initiator starts exactly on a version 2 bundle of another identity with valid points, at most 4096 one-time prekeys, both X25519 keys signed by that identity, and a chain limit from 1 to 10000 |
| `Handshake.FinishAcceptsExactly` | src/protocol/handshake.rs:711-747 | exactly one acknowledgement finishes a start: version 2 with the expected code; it yields the prepared session |
| `Handshake.GreaterIsLexicographic` | src/protocol/handshake.rs:121-135 | the order on keys is decided by the first difference, and a longer string follows its prefixes |
| `Handshake.ContextIsSorted` | src/protocol/handshake.rs:121-135 | the metadata context holds both keys, the smaller first, then the session id |
| `Handshake.StartedBundleIsSigned` | src/protocol/handshake.rs:193-246 | a start uses only an X25519 identity and a signed prekey that the identity of the bundle has signed |
| `Handshake.AcceptedInitIsBound` | src/protocol/handshake.rs:262-306 | an accepted init is of another identity and for the configured limit, and one binding signature admits one signer, X25519 identity and ML-KEM key |
| `Handshake.HonestAgreement` | src/protocol/handshake.rs:373-1291 | for all keys and choices, with or without a one-time prekey, the owner of the bundle accepts, the two sessions mirror each other in every key and identity, and the initiator accepts the acknowledgement |
| `Handshake.AcceptedAckMeansAgreement` | src/protocol/handshake.rs:711-747 | an initiator that accepts an acknowledgement agrees with its maker on the whole bundle, the whole init message and every key, and the maker holds the secrets of the X25519 identity, signed prekey, ML-KEM key and one-time prekey used |
| `Handshake.AcceptedInitMeansAgreement` | src/protocol/handshake.rs:1132-1160 | a responder that accepts an init carrying the code of an initiator agrees with it on the whole bundle, the whole init message and every key, holds the secrets of the keys used, and its acknowledgement is accepted |
| `Handshake.SameRootMeansOwnership` | src/protocol/handshake.rs:420-511 | equal root keys on the two ends mean that the responder holds every secret the start used |
| `Handshake.RootDeterminesStart` | src/protocol/handshake.rs:420-511 | two starts against one bundle with one root key have the same identity key, ephemeral, one-time prekey or none, and encapsulation |
| `Handshake.SessionKeysDiffer` | src/protocol/handshake.rs:505-561 | the five keys of a session are pairwise different, and so are the two confirmation codes |
| `Handshake.SessionIdDetermines` | src/protocol/handshake.rs:518-530 | one session id stands for one root key and one ciphertext |
| `Streaming.EncryptChunk` | src/protocol/attachment.rs:268-306 | succeeds exactly on a nonempty plaintext within the chunk size at an index below the count |
| `Streaming.OpensExactlyItsChunks` | src/protocol/attachment.rs:309-358 | of all indices, nonces and ciphertexts exactly the chunks sealed for this file at this index open, to what was sealed |
| `Streaming.OpensOnlyUnderItsFile` | src/protocol/attachment.rs:226-265 | a sealed chunk opens under other parameters only if key, identifier, MIME type, sizes, count and index all agree |
| `Streaming.AadBytesAreUnique` | src/protocol/attachment.rs:226-243 | the bytes of the associated data determine every field, although the MIME type is written without its length |
| `Streaming.CheckParameters` | src/protocol/attachment.rs:783-808 | the checks of both constructors pass exactly on parameters in range |
| `Streaming.DecryptUndoesEncrypt` | src/protocol/attachment.rs:309-357 | a sealed chunk opens exactly at its own index, to its plaintext |
| `Streaming.StreamingEncryptor.constructor` | src/protocol/attachment.rs:810-820 | starts at index 0 with an empty buffer |
| `Streaming.StreamingEncryptor.New` | src/protocol/attachment.rs:775-820 | fails exactly on parameters out of range |
| `Streaming.StreamingEncryptor.FlushBuffer` | src/protocol/attachment.rs:859-884 | seals the buffer at the current index while the budget lasts, and changes nothing otherwise |
| `Streaming.StreamingEncryptor.Write` | src/protocol/attachment.rs:822-839 | terminates; succeeds exactly when the full chunks fit the budget; bytes in and out balance; a failure leaves a full buffer with the budget spent, and loses exactly as many chunks as the budget had left |
| `Streaming.SecondByteLosesFirstChunk` | src/protocol/attachment.rs:826-838 | two bytes written for one chunk of one byte: the first chunk is made and not handed out |
| `Streaming.StreamingEncryptor.Finish` | src/protocol/attachment.rs:841-857 | succeeds exactly when the rest of the buffer completes the announced count |
| `Streaming.FullBufferRefuses` | src/protocol/attachment.rs:826-835 | with a full buffer every nonempty write fails |
| `Streaming.StreamingDecryptor.constructor` | src/protocol/attachment.rs:927-936 | starts at chunk 0 |
| `Streaming.StreamingDecryptor.New` | src/protocol/attachment.rs:897-936 | fails exactly on parameters out of range |
| `Streaming.StreamingDecryptor.DecryptNext` | src/protocol/attachment.rs:938-962 | accepts exactly the chunk sealed for this file at the next index, returns what was sealed and advances exactly then |
| `StreamingRuns.AcceptedSizes` | src/protocol/attachment.rs:103-149 | the sizes of a manifest pass exactly when they are in range and the count is the ceiling of total over chunk size; the multiplications never overflow |
| `StreamingRuns.CutOfFullChunks` | src/protocol/attachment.rs:822-884 | full chunks and a shorter rest are the reference cut of the bytes they carry |
| `StreamingRuns.PlainOfCut` | src/protocol/attachment.rs:822-884 | the chunks of a byte string carry exactly that string |
| `StreamingRuns.CutCount` | src/protocol/attachment.rs:137-149 | a byte string has the ceiling of its length over the chunk size as number of chunks |
| `StreamingRuns.EncryptAll` | src/protocol/attachment.rs:822-884 | any list of writes succeeds exactly when its bytes make the announced number of chunks, and gives the reference cut, however the bytes were split |
| `StreamingRuns.DecryptAll` | src/protocol/attachment.rs:938-966 | the chunks in order give the bytes back, and completion is reported at the last chunk and not before |
| `StreamingRuns.RoundTrip` | src/protocol/attachment.rs:137-966 | for every accepted size triple and every split of that many bytes: exactly the announced chunks, the same for every split, and decryption returns the bytes |
| `ChunkProgress.OnesCountMarks` | src/protocol/attachment.rs:556-562 | the sum of the set bits is the number of marked indices |
| `ChunkProgress.ValidMeansNothingPast` | src/protocol/attachment.rs:576-603 | a well-sized record passes exactly when no bit past the chunk count is set |
| `ChunkProgress.ValidExactlyWhen` | src/protocol/attachment.rs:564-603 | exactly the records with identifier and count in range, just enough bytes and nothing set past the count pass |
| `ChunkProgress.OnesCountCompleted` | src/protocol/attachment.rs:556-562 | in a valid record the bit count is the number of completed chunks |
| `ChunkProgress.Unmarked` | src/protocol/attachment.rs:529-534 | lists exactly the unmarked indices in increasing order, as many as the marked ones leave |
| `ChunkProgress.CompleteIffNoneRemains` | src/protocol/attachment.rs:536-541 | completion by bit count holds exactly when no chunk remains, that is when every index is completed |
| `ChunkProgress.MarkKeepsValid` | src/protocol/attachment.rs:504-527 | setting one bit adds exactly one index and keeps the record valid |
| `ChunkProgress.Progress.Create` | src/protocol/attachment.rs:484-502 | a new record is valid and has completed nothing |
| `ChunkProgress.Progress.MarkCompleted` | src/protocol/attachment.rs:504-527 | adds the index to the completed set, saturates the byte total, and fails without change on an invalid record or index |
| `SecureRegion.LiveHandlesApart` | src/crypto/secure_memory.rs:178-186 | two live handles never share a byte |
| `SecureRegion.PopKeepsSound` | src/crypto/secure_memory.rs:178-186 | a slot taken from the free list was not live and reads as zeros |
| `SecureRegion.StoreKeepsSound` | src/crypto/secure_memory.rs:299-312 | writing through a handle changes what it reads and no other slot |
| `SecureRegion.PushKeepsSound` | src/crypto/secure_memory.rs:188-204 | returning a slot zeroes it, frees it and changes no other slot |
| `SecureRegion.CloneKeepsSound` | src/crypto/secure_memory.rs:356-360 | a clone is a live copy in a slot that was free, and every other live slot is as it was |
| `SecureRegion.InitialIsSound` | src/crypto/secure_memory.rs:148-176 | a new class is all free and all zero |
| `SecureRegion.RunsStaySound` | src/crypto/secure_memory.rs:137-375 | in every run of allocations, writes, clones and drops, free and live slots partition the class without duplicates, and free slots and bytes past a handle are zero |
| `SecureRegion.UntouchedHandleKeepsItsBytes` | src/crypto/secure_memory.rs:254-375 | what a live handle reads is unchanged by every run that neither writes through it nor drops it |
| `SecurePool.CopyInto` | src/crypto/secure_memory.rs:299-312 | the copy loop overwrites exactly the given range |
| `SecurePool.SizeClass.constructor` | src/crypto/secure_memory.rs:148-176 | builds the zeroed region with every slot free |
| `SecurePool.SizeClass.New` | src/crypto/secure_memory.rs:148-176 | fails exactly on no slots, too many slots, an overflowing size or a failed lock |
| `SecurePool.SizeClass.Pop` | src/crypto/secure_memory.rs:178-186 | takes the last free slot and gives its offset, none exactly when no slot is free |
| `SecurePool.SizeClass.Push` | src/crypto/secure_memory.rs:188-204 | recovers the slot index from the offset, zeroes the slot and frees it |
| `SecurePool.SizeClass.Copy` | src/crypto/secure_memory.rs:356-360 | a second live handle with the same bytes in another slot, and every live slot unchanged |
| `SecurePool.Pool.constructor` | src/crypto/secure_memory.rs:206-209 | a pool of two valid, separate classes is valid |
| `SecurePool.Pool.Build` | src/crypto/secure_memory.rs:212-225 | succeeds exactly when both slot counts are in range and the lock holds; both classes start all free and all zero |
| `SecurePool.Pool.Allocate` | src/crypto/secure_memory.rs:227-285 | fails exactly on size 0, a size above 4096, or an exhausted small class for up to 64 bytes or large class beyond; a fresh handle is on a slot of that class that was not live and reads zeros, and the other class is untouched |
| `SecurePool.Pool.Write` | src/crypto/secure_memory.rs:299-312 | fails exactly on data longer than the handle; otherwise the handle holds the data and then zeros |
| `SecurePool.Pool.ReadBytes` | src/crypto/secure_memory.rs:325-333 | returns the first bytes of the handle, and fails exactly past its length |
| `SecurePool.Pool.TryClone` | src/crypto/secure_memory.rs:356-360 | succeeds exactly when the class has a free slot; the copy has the same bytes in a slot of its own, all live handles keep theirs, and a failure changes nothing |
| `SecurePool.Pool.Drop` | src/crypto/secure_memory.rs:364-375 | the slot ends zeroed and free |
| `SealedSlot.MinImport` | src/api/mod.rs:79-91 | the floor is the larger of the two counters |
| `SealedSlot.TrackerRoundTrip` | src/api/mod.rs:146-193 | reading a written tracker gives it back |
| `SealedSlot.TrackerBytesRoundTrip` | src/api/mod.rs:146-193 | an accepted tracker record is the one its tracker is written as |
| `SealedSlot.SlotRoundTrip` | src/api/mod.rs:267-328 | reading a written slot gives it back |
| `SealedSlot.BytesRoundTrip` | src/api/mod.rs:267-328 | an accepted slot record is the one its slot is written as |
| `SealedSlot.AcceptsExactlyTheRecords` | src/api/mod.rs:267-328 | a byte string is accepted if and only if it is the record of a slot within the size limit whose issued counter is not below the restored one |
| `SealedSlot.SlotLayout` | src/api/mod.rs:267-282 | exactly the slots within the size limit are written; the offset and content of every field |
| `SealedSlot.SealedStateSlot.constructor` | src/api/mod.rs:212-217 | a new slot has zero counters and no blob |
| `SealedSlot.SealedStateSlot.NoteExport` | src/api/mod.rs:248-261 | accepts exactly a counter above the issued one and not below the restored one with a blob within the limit, and changes nothing otherwise |
| `SealedSlot.SealedStateSlot.NoteRestore` | src/api/mod.rs:121-143 | accepts exactly a positive counter not below the restored one; raises the issued counter if needed and keeps the blob |
| `SealedSlot.SealedStateSlot.Export` | src/api/mod.rs:384-392 | stores the next counter with a blob made under it, or changes nothing |
| `SealedSlot.SealedStateSlot.Restore` | src/api/mod.rs:464-480 | imports the stored blob against the floor and notes its counter, or changes nothing |
| `SealedSlot.StepKeepsConsistent` | src/api/mod.rs:384-480 | export, restore and persisting keep the stored blob the newest one and its counter the floor |
| `SealedSlot.RunsStayConsistent` | src/api/mod.rs:57-480 | over every run issued counters strictly increase, the issued counter is never below the restored one, and the stored blob is the newest |
| `SealedSlot.OnlyTheNewestPasses` | src/api/mod.rs:79-91 | of all blobs issued in a run exactly the newest passes the floor, and the slot restores it |
| `Padding.Select` | src/crypto/padding.rs:50-53 | selecting by an all-ones or all-zeros word mask picks one operand |
| `Padding.AndPlusOr` | src/crypto/padding.rs:50-53 | the modelled bit operations on words: what two words share and what either has add up to both |
| `Padding.AndIsShared` | src/crypto/padding.rs:50-53 | bit by bit, the conjunction of two words has exactly the bits both have |
| `Padding.NonzeroBitIsExact` | src/crypto/padding.rs:49 | the 16-bit trick is 1 exactly on a nonzero byte |
| `Padding.GtMaskIsExactWithinHalfRange` | src/crypto/padding.rs:15-21 | the comparison mask is right if and only if the words are less than half the word range apart |
| `Padding.GtMaskFailsFarApart` | src/crypto/padding.rs:15-21 | half the word range apart the mask is wrong |
| `Padding.PaddedLength` | src/crypto/padding.rs:81-85 | the least multiple of the block size above the message length |
| `Padding.Pad` | src/crypto/padding.rs:26-33 | message, 0x01, zeros, to a whole number of blocks and at most one block more |
| `Padding.FindLastSentinel` | src/crypto/padding.rs:44-54 | the branch-free scan finds the last 0x01, if there is one |
| `Padding.NonzeroAfter` | src/crypto/padding.rs:65-71 | the branch-free check is zero exactly when only zeros follow the position |
| `Padding.Unpad` | src/crypto/padding.rs:35-79 | accepts exactly the nonempty block-aligned buffers of the form message, 0x01, zeros, and returns the message |
| `Padding.PadsIsUnique` | src/crypto/padding.rs:35-79 | a buffer is the padding of at most one message |
| `Padding.RoundTrip` | src/crypto/padding.rs:26-79 | unpadding a padded message returns it, also if it contains 0x01 bytes |

## Left out

- AES-GCM-SIV, HKDF, HMAC, Ed25519, X25519 and ML-KEM: symbolic terms or parameters with their ideal properties.
- Protobuf encoding: messages are datatypes; codecs are parameters, injective or round-tripping where a theorem needs it, and no longer on a valid bundle than its fields add up to.
- Session ratchet, group key tree, sender keys and VoIP media sessions: not part of this model.
- `reconstruct_serialized`: it cuts equal slices and fits only share lists whose entries have the length of the tag.
- Shamir.Split: the tag is an arbitrary function of key and secret, and the random coefficients are an argument.
- VoipRelay.CallStore.ProcessSignal: size, decoding and envelope checks before the lifecycle are not modelled.
- VoipInterleaving.Linearizable: a store call that returns an error is taken to have changed nothing.
- RosterCommits.ValidateCommit: decoding, size limits and the shape checks of single proposals are one flag of the commit, and signatures are the identity that signed.
- Strict relay validation of commits and messages, welcome and envelope routing, recipient lists: single-branch checks around the roster.
- Lock poisoning, event handlers and the low-inventory warning of prekeys.
- PreKeys.GenerateFromSeed: the index `count + i` does not wrap at 32 bits, since a pool of 2^31 keys cannot be allocated.
- Responder.IdentityKeys.Respond: the checks before and after the prekey lookup are two flags of the init; `Handshake` models what they compute.
- Reservations.Reservation.Reserve: calls of other threads on the same identity between its two steps are not modelled, as a responder borrows its identity exclusively.
- Handshake.HonestAgreement: key-size checks, nonce generators, the clock and the wiping of buffers are not modelled.
- Streaming.StreamingEncryptor.New: the MIME rules are a flag of the file, and sizes are unbounded naturals.
- ChunkProgress.Unmarked: the iterator chain is written as a recursive function.
- SecurePool.SizeClass.New: the kernel lock is a flag, and the process-wide once-cell is not modelled.
- SecurePool.Pool.Write: access through closures is covered only as writing the whole handle.
- SealedSlot.SealedStateSlot.Export: sealing a session is a parameter that always yields a blob.
- Padding.Unpad: buffers of 2^63 bytes or more do not exist in the source language and are excluded.
- Thumbnails, link previews, file names, FFI and bindings: plumbing around the modelled core.

/**
 The relay's view of a group: validating commits against a roster and applying them.

 Keys, identifiers and credentials are byte strings.  Outcomes of signature verification and of
 the key-format checks are carried by the messages: `signer` is the identity under whose key the
 signature verifies, and `valid` flags say whether the format checks pass.
 */
module Roster {
  import opened Arithmetic
  import opened Outcomes
  import opened Sequences

  type Bytes = seq<nat>

  const MAX_GROUP_MEMBERS := 1024
  const MAX_PROPOSALS_PER_COMMIT := 64
  const MAX_CREDENTIAL_SIZE := 4096
  const PUBLIC_KEY_BYTES := 32
  const MAX_U64 := 0xFFFF_FFFF_FFFF_FFFF
  const GROUP_EXTERNAL_JOIN_AUTH_FORMAT_VERSION := 1

  datatype Member = Member(leaf: nat, identity: Bytes, identityX25519: Bytes, credential: Bytes)

  datatype KeyPackage = KeyPackage(identity: Bytes, identityX25519: Bytes, credential: Bytes, valid: bool)

  datatype Authorization = Authorization(
    version: nat, groupId: Bytes, epoch: nat, joiner: Bytes, joinerX25519: Bytes, joinerCredential: Bytes,
    authorizerLeaf: nat, signer: Option<Bytes>)

  datatype Proposal =
    | Add(keyPackage: Option<KeyPackage>)
    | Remove(leaf: nat)
    | Update
    | ExternalInit(authorizationEmpty: bool, authorization: Option<Authorization>)
    | Psk
    | ReInit
    | Empty

  /** `wellShaped` is the verdict of the roster-independent shape rules on the proposals. */
  datatype Commit = Commit(
    epoch: nat, groupId: Bytes, proposals: seq<Proposal>, wellShaped: bool, hasUpdatePath: bool,
    committerLeaf: nat, signer: Option<Bytes>)

  datatype CommitKind = Standard | ExternalJoin

  datatype CommitInfo = CommitInfo(
    committerLeaf: nat, newEpoch: nat, added: seq<Bytes>, removed: seq<nat>, kind: CommitKind)

  datatype RosterState = RosterState(groupId: Bytes, epoch: nat, members: seq<Member>)

  // ----- Members -----

  ghost predicate HasLeaf(members: seq<Member>, leaf: nat) {
    exists m :: m in members && m.leaf == leaf
  }

  ghost predicate HasIdentity(members: seq<Member>, identity: Bytes) {
    exists m :: m in members && m.identity == identity
  }

  function FindMember(members: seq<Member>, leaf: nat): (r: Option<Member>)
    ensures r.Some? <==> HasLeaf(members, leaf)
    ensures r.Some? ==> r.value in members && r.value.leaf == leaf
  {
    if members == [] then None
    else if members[0].leaf == leaf then Some(members[0])
    else FindMember(members[1..], leaf)
  }

  function Identities(members: seq<Member>): (r: seq<Bytes>)
    ensures |r| == |members| && forall i | 0 <= i < |r| :: r[i] == members[i].identity
  {
    seq(|members|, i requires 0 <= i < |members| => members[i].identity)
  }

  function Staying(removed: set<nat>): Member -> bool {
    (m: Member) => m.leaf !in removed
  }

  /** The members whose leaf is not in `removed`, in order. */
  function Without(members: seq<Member>, removed: set<nat>): seq<Member> {
    Filter(members, Staying(removed))
  }

  /** Leaf indices and identities are each pairwise distinct. */
  ghost predicate Unique(members: seq<Member>) {
    forall i, j | 0 <= i < j < |members| ::
      members[i].leaf != members[j].leaf && members[i].identity != members[j].identity
  }

  lemma WithoutContents(members: seq<Member>, removed: set<nat>)
    ensures |Without(members, removed)| <= |members|
    ensures forall m :: m in Without(members, removed) <==> m in members && m.leaf !in removed
  {
    FilterContents(members, Staying(removed));
  }

  lemma {:induction false} WithoutUnique(members: seq<Member>, removed: set<nat>)
    requires Unique(members)
    ensures Unique(Without(members, removed))
  {
    if members != [] {
      var front, last := members[..|members| - 1], members[|members| - 1];
      assert Unique(front);
      WithoutUnique(front, removed);
      WithoutContents(front, removed);
      UniqueSnoc(Without(front, removed), last) by {
        assert forall m | m in front :: m.leaf != last.leaf && m.identity != last.identity;
      }
    }
  }

  lemma UniqueSnoc(members: seq<Member>, m: Member)
    requires Unique(members) && !HasLeaf(members, m.leaf) && !HasIdentity(members, m.identity)
    ensures Unique(members + [m])
  {
    var s := members + [m];
    forall i, j | 0 <= i < j < |s| ensures s[i].leaf != s[j].leaf && s[i].identity != s[j].identity {
      assert s[i] in members;
    }
  }

  lemma WithoutTwice(members: seq<Member>, a: set<nat>, b: set<nat>)
    ensures Without(Without(members, a), b) == Without(members, a + b)
  {
    FilterTwice(members, Staying(a), Staying(b), Staying(a + b));
  }

  lemma WithoutNothing(members: seq<Member>)
    ensures Without(members, {}) == members
  {
    FilterAll(members, Staying({}));
  }

  // ----- Applying a commit -----

  /** Keys of 32 bytes and a credential of 1 to 4096 bytes. */
  ghost predicate ValidRecord(m: Member) {
    |m.identity| == PUBLIC_KEY_BYTES && |m.identityX25519| == PUBLIC_KEY_BYTES && 0 < |m.credential| <= MAX_CREDENTIAL_SIZE
  }

  /** The removals name distinct leaves that are present. */
  ghost predicate RemovalsOk(members: seq<Member>, removed: seq<nat>) {
    NoDuplicates(removed) && forall leaf | leaf in removed :: HasLeaf(members, leaf)
  }

  /** The records to add are well formed and bring only new leaves and identities. */
  ghost predicate AdditionsFit(kept: seq<Member>, added: seq<Member>) {
    && (forall m | m in added :: ValidRecord(m))
    && (forall m | m in added :: !HasLeaf(kept, m.leaf) && !HasIdentity(kept, m.identity))
    && Unique(added)
  }

  /** Exactly when a commit can be applied. */
  ghost predicate Applies(r: RosterState, info: CommitInfo, added: seq<Member>) {
    && r.epoch < MAX_U64 && info.newEpoch == r.epoch + 1
    && RemovalsOk(r.members, info.removed)
    && var kept := Without(r.members, Elements(info.removed));
    && |kept| + |info.added| <= MAX_GROUP_MEMBERS
    && Matches(kept, info.added, added)
  }

  /** The roster a commit leads to. */
  ghost function Applied(r: RosterState, info: CommitInfo, added: seq<Member>): RosterState {
    r.(epoch := info.newEpoch, members := Without(r.members, Elements(info.removed)) + added)
  }

  lemma RemovalStep(members: seq<Member>, removed: seq<nat>, i: nat)
    requires i < |removed| && RemovalsOk(members, removed[..i])
    requires HasLeaf(Without(members, Elements(removed[..i])), removed[i])
    ensures RemovalsOk(members, removed[..i + 1])
    ensures Without(members, Elements(removed[..i + 1])) == Without(Without(members, Elements(removed[..i])), {removed[i]})
  {
    assert removed[..i + 1] == removed[..i] + [removed[i]];
    assert Elements(removed[..i + 1]) == Elements(removed[..i]) + {removed[i]};
    WithoutContents(members, Elements(removed[..i]));
    WithoutTwice(members, Elements(removed[..i]), {removed[i]});
  }

  /** The removal loop. */
  method RemoveLeaves(members: seq<Member>, removed: seq<nat>) returns (ok: bool, kept: seq<Member>)
    ensures ok <==> RemovalsOk(members, removed)
    ensures ok ==> kept == Without(members, Elements(removed))
  {
    kept := members;
    WithoutNothing(members);
    assert Elements(removed[..0]) == {};
    for i := 0 to |removed|
      invariant RemovalsOk(members, removed[..i])
      invariant kept == Without(members, Elements(removed[..i]))
    {
      if FindMember(kept, removed[i]).None? {
        RemovalFails(members, removed, i);
        return false, kept;
      }
      RemovalStep(members, removed, i);
      kept := Without(kept, {removed[i]});
    }
    assert removed[..|removed|] == removed;
    return true, kept;
  }

  /** A leaf missing from what is left was never there or has been removed before. */
  lemma RemovalFails(members: seq<Member>, removed: seq<nat>, i: nat)
    requires i < |removed| && !HasLeaf(Without(members, Elements(removed[..i])), removed[i])
    ensures !RemovalsOk(members, removed)
  {
    WithoutContents(members, Elements(removed[..i]));
    if HasLeaf(members, removed[i]) {
      assert removed[i] in removed[..i];
      var k :| 0 <= k < i && removed[k] == removed[i];
    } else {
      assert removed[i] in removed;
    }
  }

  /** `swap_remove`: put the last entry in place of entry `i`. */
  function SwapRemove(s: seq<Bytes>, i: nat): (r: seq<Bytes>)
    requires i < |s|
    ensures |r| == |s| - 1 && multiset(r) + multiset{s[i]} == multiset(s)
  {
    var last := |s| - 1;
    assert s == s[..last] + [s[last]];
    if i == last then s[..last] else s[..last][i := s[last]]
  }

  /** Search the expected identities for one and strike it out. */
  method StrikeOut(expected: seq<Bytes>, identity: Bytes) returns (found: bool, rest: seq<Bytes>)
    ensures found <==> identity in expected
    ensures found ==> multiset(rest) + multiset{identity} == multiset(expected)
  {
    rest := expected;
    var i := 0;
    while i < |expected|
      invariant 0 <= i <= |expected|
      invariant identity !in expected[..i]
    {
      if expected[i] == identity {
        return true, SwapRemove(expected, i);
      }
      i := i + 1;
    }
    return false, expected;
  }

  ghost predicate SeenAre(leaves: set<nat>, identities: set<Bytes>, kept: seq<Member>, added: seq<Member>) {
    && (forall k :: k in leaves <==> HasLeaf(kept, k) || HasLeaf(added, k))
    && (forall k :: k in identities <==> HasIdentity(kept, k) || HasIdentity(added, k))
  }

  /** What holds of the first `i` records when the loop reaches record `i`. */
  ghost predicate AddedSoFar(kept: seq<Member>, added: seq<Member>, i: nat, proposed: seq<Bytes>, expected: seq<Bytes>)
    requires i <= |added|
  {
    && AdditionsFit(kept, added[..i])
    && multiset(expected) + multiset(Identities(added[..i])) == multiset(proposed)
  }

  lemma OneMoreMatched<T>(rest: multiset<T>, expected: multiset<T>, ids: seq<T>, x: T, proposed: multiset<T>)
    requires rest + multiset{x} == expected && expected + multiset(ids) == proposed
    ensures rest + multiset(ids + [x]) == proposed
  {
  }

  lemma OneTooMany<T>(expected: multiset<T>, ids: seq<T>, x: T, more: seq<T>, proposed: multiset<T>)
    requires expected + multiset(ids) == proposed && x !in expected
    ensures multiset(ids + [x] + more) != proposed
  {
    assert multiset(ids + [x] + more)[x] == multiset(ids)[x] + 1 + multiset(more)[x];
  }

  lemma {:induction false} IdentitiesConcat(a: seq<Member>, b: seq<Member>)
    ensures Identities(a + b) == Identities(a) + Identities(b)
  {
  }

  lemma AdditionStep(kept: seq<Member>, added: seq<Member>, i: nat, proposed: seq<Bytes>, expected: seq<Bytes>, rest: seq<Bytes>)
    requires i < |added| && AddedSoFar(kept, added, i, proposed, expected)
    requires ValidRecord(added[i]) && multiset(rest) + multiset{added[i].identity} == multiset(expected)
    requires !HasLeaf(kept, added[i].leaf) && !HasLeaf(added[..i], added[i].leaf)
    requires !HasIdentity(kept, added[i].identity) && !HasIdentity(added[..i], added[i].identity)
    ensures AddedSoFar(kept, added, i + 1, proposed, rest)
  {
    assert added[..i + 1] == added[..i] + [added[i]];
    UniqueSnoc(added[..i], added[i]);
    IdentitiesConcat(added[..i], [added[i]]);
    OneMoreMatched(multiset(rest), multiset(expected), Identities(added[..i]), added[i].identity, multiset(proposed));
  }

  /** A record whose identity is no longer expected cannot be part of a match. */
  lemma AdditionUnexpected(added: seq<Member>, i: nat, proposed: seq<Bytes>, expected: seq<Bytes>)
    requires i < |added| && multiset(expected) + multiset(Identities(added[..i])) == multiset(proposed)
    requires added[i].identity !in expected
    ensures multiset(Identities(added)) != multiset(proposed)
  {
    IdentitiesSplit(added, i);
    OneTooMany(multiset(expected), Identities(added[..i]), added[i].identity, Identities(added[i + 1..]), multiset(proposed));
  }

  lemma IdentitiesSplit(added: seq<Member>, i: nat)
    requires i < |added|
    ensures Identities(added) == Identities(added[..i]) + [added[i].identity] + Identities(added[i + 1..])
  {
    var front, back := Identities(added[..i]), Identities(added[i + 1..]);
    var all := front + [added[i].identity] + back;
    forall k | 0 <= k < |added| ensures all[k] == added[k].identity {
      if k > i { assert all[k] == back[k - i - 1]; }
    }
  }

  lemma AdditionRepeated(kept: seq<Member>, added: seq<Member>, i: nat)
    requires i < |added|
    requires HasLeaf(kept, added[i].leaf) || HasLeaf(added[..i], added[i].leaf)
          || HasIdentity(kept, added[i].identity) || HasIdentity(added[..i], added[i].identity)
    ensures !AdditionsFit(kept, added)
  {
    assert added[i] in added;
    if HasLeaf(added[..i], added[i].leaf) {
      var m :| m in added[..i] && m.leaf == added[i].leaf;
      var k :| 0 <= k < i && added[k] == m;
    } else if HasIdentity(added[..i], added[i].identity) {
      var m :| m in added[..i] && m.identity == added[i].identity;
      var k :| 0 <= k < i && added[k] == m;
    }
  }

  lemma SeenStep(leaves: set<nat>, identities: set<Bytes>, kept: seq<Member>, added: seq<Member>, i: nat)
    requires i < |added| && SeenAre(leaves, identities, kept, added[..i])
    ensures SeenAre(leaves + {added[i].leaf}, identities + {added[i].identity}, kept, added[..i + 1])
  {
    assert added[..i + 1] == added[..i] + [added[i]];
  }

  /** The sets of leaves and identities that the kept members occupy. */
  method Occupied(kept: seq<Member>) returns (leaves: set<nat>, identities: set<Bytes>)
    ensures SeenAre(leaves, identities, kept, [])
  {
    leaves, identities := {}, {};
    for i := 0 to |kept|
      invariant forall k :: k in leaves <==> HasLeaf(kept[..i], k)
      invariant forall k :: k in identities <==> HasIdentity(kept[..i], k)
    {
      assert kept[..i + 1] == kept[..i] + [kept[i]];
      leaves := leaves + {kept[i].leaf};
      identities := identities + {kept[i].identity};
    }
    assert kept[..|kept|] == kept;
  }

  ghost predicate Matches(kept: seq<Member>, proposed: seq<Bytes>, added: seq<Member>) {
    AdditionsFit(kept, added) && multiset(Identities(added)) == multiset(proposed)
  }

  /** One record: its format, its identity among the expected ones, its leaf, its identity again. */
  method MatchOne(kept: seq<Member>, proposed: seq<Bytes>, added: seq<Member>, i: nat, expected: seq<Bytes>,
                  leaves: set<nat>, identities: set<Bytes>) returns (r: Result<seq<Bytes>>)
    requires i < |added| && AddedSoFar(kept, added, i, proposed, expected)
    requires SeenAre(leaves, identities, kept, added[..i])
    ensures r.Ok? ==> AddedSoFar(kept, added, i + 1, proposed, r.value)
    ensures r.Err? ==> !Matches(kept, proposed, added)
  {
    var m := added[i];
    assert m in added;
    if |m.identity| != PUBLIC_KEY_BYTES {
      return Err(InvalidInput("Invalid Ed25519 key size in added member"));
    }
    if |m.identityX25519| != PUBLIC_KEY_BYTES {
      return Err(InvalidInput("Invalid X25519 key size in added member"));
    }
    if m.credential == [] || |m.credential| > MAX_CREDENTIAL_SIZE {
      return Err(InvalidInput("Invalid credential size in added member"));
    }
    var found, rest := StrikeOut(expected, m.identity);
    if !found {
      AdditionUnexpected(added, i, proposed, expected);
      return Err(GroupMembership("Added member identity not present in commit Add proposals"));
    }
    if m.leaf in leaves {
      AdditionRepeated(kept, added, i);
      return Err(GroupMembership("Duplicate leaf index in updated roster"));
    }
    if m.identity in identities {
      AdditionRepeated(kept, added, i);
      return Err(GroupMembership("Duplicate identity in updated roster"));
    }
    AdditionStep(kept, added, i, proposed, expected, rest);
    return Ok(rest);
  }

  lemma MatchedAll(kept: seq<Member>, added: seq<Member>, proposed: seq<Bytes>, expected: seq<Bytes>)
    requires AddedSoFar(kept, added, |added|, proposed, expected)
    ensures Matches(kept, proposed, added) <==> expected == []
  {
    assert added[..|added|] == added;
    assert |multiset(expected)| == |expected|;
  }

  /** The loop over the records to add. */
  method MatchAdditions(kept: seq<Member>, proposed: seq<Bytes>, added: seq<Member>) returns (r: Result<()>)
    ensures r.Ok? <==> Matches(kept, proposed, added)
  {
    var expected := proposed;
    var leaves, identities := Occupied(kept);
    for i := 0 to |added|
      invariant AddedSoFar(kept, added, i, proposed, expected)
      invariant SeenAre(leaves, identities, kept, added[..i])
    {
      var rest := MatchOne(kept, proposed, added, i, expected, leaves, identities);
      if rest.Err? {
        return Err(rest.error);
      }
      SeenStep(leaves, identities, kept, added, i);
      leaves, identities := leaves + {added[i].leaf}, identities + {added[i].identity};
      expected := rest.value;
    }
    MatchedAll(kept, added, proposed, expected);
    if expected != [] {
      return Err(GroupMembership("Missing added member records for commit Add proposals"));
    }
    return Ok(());
  }

  class GroupRoster {
    var groupId: Bytes
    var epoch: nat
    var members: seq<Member>

    constructor (groupId: Bytes, creator: Member)
      ensures State() == RosterState(groupId, 0, [creator])
    {
      this.groupId := groupId;
      epoch := 0;
      members := [creator];
    }

    ghost function State(): RosterState
      reads this
    {
      RosterState(groupId, epoch, members)
    }

    /** `apply_commit_to_roster_tentative`: all or nothing, and exactly when the commit applies. */
    method Apply(info: CommitInfo, added: seq<Member>) returns (r: Result<()>)
      modifies this
      ensures r.Ok? <==> Applies(old(State()), info, added)
      ensures State() == if r.Ok? then Applied(old(State()), info, added) else old(State())
    {
      if epoch >= MAX_U64 {
        return Err(GroupProtocol("Roster epoch overflow"));
      }
      if info.newEpoch != epoch + 1 {
        return Err(GroupProtocol("Roster epoch update mismatch"));
      }
      var ok, kept := RemoveLeaves(members, info.removed);
      if !ok {
        return Err(GroupMembership("Removed leaf is not present in roster"));
      }
      if |kept| + |info.added| > MAX_GROUP_MEMBERS {
        return Err(GroupMembership("Updated roster would exceed max members"));
      }
      r := MatchAdditions(kept, info.added, added);
      if r.Ok? {
        members, epoch := kept + added, info.newEpoch;
      }
    }
  }
}

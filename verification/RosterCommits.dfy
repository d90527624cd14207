/**
 Validating a commit against a roster, and what any sequence of validated and applied commits
 does to a roster that starts with its creator alone.
 */
module RosterCommits {
  import Arithmetic
  import opened Outcomes
  import opened Roster

  // ----- Proposals -----

  /** The identities of the Add proposals that carry a key package, in order. */
  function Added(proposals: seq<Proposal>): seq<Bytes> {
    if proposals == [] then []
    else
      var last := proposals[|proposals| - 1];
      Added(proposals[..|proposals| - 1]) + (if last.Add? && last.keyPackage.Some? then [last.keyPackage.value.identity] else [])
  }

  /** The leaves of the Remove proposals, in order. */
  function Removed(proposals: seq<Proposal>): seq<nat> {
    if proposals == [] then []
    else
      var last := proposals[|proposals| - 1];
      Removed(proposals[..|proposals| - 1]) + (if last.Remove? then [last.leaf] else [])
  }

  function CountAdds(proposals: seq<Proposal>): nat {
    if proposals == [] then 0
    else CountAdds(proposals[..|proposals| - 1]) + (if proposals[|proposals| - 1].Add? then 1 else 0)
  }

  function CountInits(proposals: seq<Proposal>): nat {
    if proposals == [] then 0
    else CountInits(proposals[..|proposals| - 1]) + (if proposals[|proposals| - 1].ExternalInit? then 1 else 0)
  }

  /** The first key package of an Add proposal. */
  function FirstKeyPackage(proposals: seq<Proposal>): Option<KeyPackage> {
    if proposals == [] then None
    else if proposals[0].Add? && proposals[0].keyPackage.Some? then proposals[0].keyPackage
    else FirstKeyPackage(proposals[1..])
  }

  function FirstExternalInit(proposals: seq<Proposal>): Option<Proposal> {
    if proposals == [] then None
    else if proposals[0].ExternalInit? then Some(proposals[0])
    else FirstExternalInit(proposals[1..])
  }

  lemma Prefix(proposals: seq<Proposal>, i: nat)
    requires i < |proposals|
    ensures proposals[..i + 1][..i] == proposals[..i] && proposals[..i + 1] == proposals[..i] + [proposals[i]]
  {
  }

  // ----- External joins -----

  ghost predicate JoinStructure(proposals: seq<Proposal>) {
    && (forall p | p in proposals :: p.Add? || (p.ExternalInit? && !p.authorizationEmpty))
    && CountInits(proposals) == 1 && CountAdds(proposals) == 1
  }

  method ValidateJoinStructure(proposals: seq<Proposal>) returns (r: Result<()>)
    ensures r.Ok? <==> JoinStructure(proposals)
  {
    var inits, adds := 0, 0;
    for i := 0 to |proposals|
      invariant forall p | p in proposals[..i] :: p.Add? || (p.ExternalInit? && !p.authorizationEmpty)
      invariant inits == CountInits(proposals[..i]) && adds == CountAdds(proposals[..i])
    {
      Prefix(proposals, i);
      match proposals[i] {
        case ExternalInit(authorizationEmpty, _) =>
          inits := inits + 1;
          if authorizationEmpty {
            return Err(GroupProtocol("External join authorization is required"));
          }
        case Add(_) =>
          adds := adds + 1;
        case _ =>
          return Err(GroupProtocol("External join commit must not contain this proposal"));
      }
    }
    assert proposals[..|proposals|] == proposals;
    if inits != 1 {
      return Err(GroupProtocol("External join commit must contain exactly 1 ExternalInit"));
    }
    if adds != 1 {
      return Err(GroupProtocol("External join commit must contain exactly 1 Add proposal"));
    }
    return Ok(());
  }

  /** The authorization binds this group, this epoch and this joiner, and a member signed it. */
  ghost predicate Authorized(a: Authorization, joiner: KeyPackage, r: RosterState) {
    && a.version == GROUP_EXTERNAL_JOIN_AUTH_FORMAT_VERSION
    && a.groupId == r.groupId && a.epoch == r.epoch
    && a.joiner == joiner.identity && a.joinerX25519 == joiner.identityX25519 && a.joinerCredential == joiner.credential
    && var authorizer := FindMember(r.members, a.authorizerLeaf);
       authorizer.Some? && a.signer == Some(authorizer.value.identity)
  }

  method CheckAuthorization(a: Authorization, joiner: KeyPackage, r: RosterState) returns (v: Result<()>)
    ensures v.Ok? <==> Authorized(a, joiner, r)
  {
    if a.version != GROUP_EXTERNAL_JOIN_AUTH_FORMAT_VERSION {
      return Err(GroupProtocol("External join authorization format version mismatch"));
    }
    if a.groupId != r.groupId {
      return Err(GroupProtocol("External join authorization group_id mismatch"));
    }
    if a.epoch != r.epoch {
      return Err(GroupProtocol("External join authorization epoch mismatch"));
    }
    if a.joiner != joiner.identity || a.joinerX25519 != joiner.identityX25519 || a.joinerCredential != joiner.credential {
      return Err(GroupProtocol("External join authorization does not match Add proposal identity"));
    }
    var authorizer := FindMember(r.members, a.authorizerLeaf);
    if authorizer.None? {
      return Err(GroupMembership("External join authorizer leaf is not a group member"));
    }
    if a.signer != Some(authorizer.value.identity) {
      return Err(GroupProtocol("External join authorization signature verification failed"));
    }
    return Ok(());
  }

  ghost predicate IsJoin(proposals: seq<Proposal>) {
    exists p :: p in proposals && p.ExternalInit?
  }

  /** Whose signature a commit must carry, and whether such a sender is admissible. */
  ghost predicate SenderIs(c: Commit, r: RosterState, sender: Bytes, kind: CommitKind) {
    var committer := FindMember(r.members, c.committerLeaf);
    if !IsJoin(c.proposals) then kind == Standard && committer.Some? && sender == committer.value.identity
    else
      var joiner, init := FirstKeyPackage(c.proposals), FirstExternalInit(c.proposals);
      && kind == ExternalJoin && committer.None? && JoinStructure(c.proposals)
      && joiner.Some? && joiner.value.valid && sender == joiner.value.identity
      && init.Some? && init.value.ExternalInit? && init.value.authorization.Some?
      && Authorized(init.value.authorization.value, joiner.value, r)
  }

  /** An Add carries a valid key package; a Remove names a member other than the committer. */
  ghost predicate ChangeOk(c: Commit, r: RosterState, p: Proposal) {
    match p
    case Add(kp) => kp.Some? && kp.value.valid
    case Remove(leaf) => FindMember(r.members, leaf).Some? && leaf != c.committerLeaf
    case Empty => false
    case _ => true
  }

  ghost predicate ChangesOk(c: Commit, r: RosterState, n: nat)
    requires n <= |c.proposals|
  {
    forall i | 0 <= i < n :: ChangeOk(c, r, c.proposals[i])
  }

  ghost predicate Valid(c: Commit, r: RosterState, info: CommitInfo) {
    && r.epoch < MAX_U64 && c.epoch == r.epoch + 1 && c.groupId == r.groupId
    && |c.proposals| <= MAX_PROPOSALS_PER_COMMIT && c.hasUpdatePath && c.wellShaped
    && (exists sender :: SenderIs(c, r, sender, info.kind) && c.signer == Some(sender))
    && ChangesOk(c, r, |c.proposals|)
    && info.committerLeaf == c.committerLeaf && info.newEpoch == c.epoch
    && info.added == Added(c.proposals) && info.removed == Removed(c.proposals)
  }

  method ContainsJoin(proposals: seq<Proposal>) returns (b: bool)
    ensures b <==> IsJoin(proposals)
  {
    for i := 0 to |proposals|
      invariant !IsJoin(proposals[..i])
    {
      if proposals[i].ExternalInit? {
        assert proposals[i] in proposals;
        return true;
      }
      Prefix(proposals, i);
    }
    assert proposals[..|proposals|] == proposals;
    return false;
  }

  method SenderIdentity(c: Commit, r: RosterState) returns (s: Result<(Bytes, CommitKind)>)
    ensures s.Ok? ==> SenderIs(c, r, s.value.0, s.value.1)
    ensures s.Err? ==> forall sender, kind :: !SenderIs(c, r, sender, kind)
  {
    var join := ContainsJoin(c.proposals);
    var committer := FindMember(r.members, c.committerLeaf);
    if !join {
      if committer.None? {
        return Err(GroupMembership("Committer leaf is not a group member"));
      }
      return Ok((committer.value.identity, Standard));
    }
    var structure := ValidateJoinStructure(c.proposals);
    if structure.Err? {
      return Err(structure.error);
    }
    if committer.Some? {
      return Err(GroupMembership("External join committer leaf is already present in roster"));
    }
    var joiner := FirstKeyPackage(c.proposals);
    if joiner.None? || !joiner.value.valid {
      return Err(GroupMembership("External join commit missing Add proposal with KeyPackage"));
    }
    var init := FirstExternalInit(c.proposals);
    if init.None? || !init.value.ExternalInit? || init.value.authorization.None? {
      return Err(GroupProtocol("External join commit missing ExternalInit proposal"));
    }
    var authorized := CheckAuthorization(init.value.authorization.value, joiner.value, r);
    if authorized.Err? {
      return Err(authorized.error);
    }
    return Ok((joiner.value.identity, ExternalJoin));
  }

  lemma CollectStep(proposals: seq<Proposal>, i: nat)
    requires i < |proposals|
    ensures Added(proposals[..i + 1]) == Added(proposals[..i]) +
      (if proposals[i].Add? && proposals[i].keyPackage.Some? then [proposals[i].keyPackage.value.identity] else [])
    ensures Removed(proposals[..i + 1]) == Removed(proposals[..i]) + (if proposals[i].Remove? then [proposals[i].leaf] else [])
  {
    Prefix(proposals, i);
  }

  /** The loop that collects additions and removals. */
  method CollectChanges(c: Commit, r: RosterState) returns (ok: bool, added: seq<Bytes>, removed: seq<nat>)
    ensures ok <==> ChangesOk(c, r, |c.proposals|)
    ensures ok ==> added == Added(c.proposals) && removed == Removed(c.proposals)
  {
    added, removed := [], [];
    for i := 0 to |c.proposals|
      invariant ChangesOk(c, r, i)
      invariant added == Added(c.proposals[..i]) && removed == Removed(c.proposals[..i])
    {
      CollectStep(c.proposals, i);
      match c.proposals[i] {
        case Add(keyPackage) =>
          if keyPackage.None? || !keyPackage.value.valid {
            return false, added, removed;
          }
          added := added + [keyPackage.value.identity];
        case Remove(leaf) =>
          var member := FindMember(r.members, leaf);
          if member.None? || leaf == c.committerLeaf {
            return false, added, removed;
          }
          removed := removed + [leaf];
        case Empty =>
          return false, added, removed;
        case _ =>
      }
    }
    assert c.proposals[..|c.proposals|] == c.proposals;
    return true, added, removed;
  }

  /** `validate_commit_for_relay_core` on a decoded commit. */
  method ValidateCommit(c: Commit, r: RosterState) returns (v: Result<CommitInfo>)
    ensures v.Ok? ==> Valid(c, r, v.value)
    ensures v.Err? ==> forall info :: !Valid(c, r, info)
  {
    if r.epoch >= MAX_U64 {
      return Err(GroupProtocol("Roster epoch overflow"));
    }
    if c.epoch != r.epoch + 1 {
      return Err(GroupProtocol("Commit epoch mismatch"));
    }
    if c.groupId != r.groupId {
      return Err(GroupProtocol("Commit group_id mismatch"));
    }
    if |c.proposals| > MAX_PROPOSALS_PER_COMMIT {
      return Err(GroupProtocol("Commit has too many proposals"));
    }
    if !c.hasUpdatePath {
      return Err(GroupProtocol("Commit missing update_path"));
    }
    if !c.wellShaped {
      return Err(GroupMembership("Malformed proposal"));
    }
    var sender := SenderIdentity(c, r);
    if sender.Err? {
      return Err(sender.error);
    }
    if c.signer != Some(sender.value.0) {
      return Err(GroupProtocol("Committer Ed25519 signature verification failed"));
    }
    var ok, added, removed := CollectChanges(c, r);
    if !ok {
      return Err(GroupMembership("Invalid Add or Remove proposal"));
    }
    return Ok(CommitInfo(c.committerLeaf, c.epoch, added, removed, sender.value.1));
  }

  // ----- What validation guarantees -----

  lemma {:induction false} RemovedLeaves(proposals: seq<Proposal>, leaf: nat)
    requires leaf in Removed(proposals)
    ensures Remove(leaf) in proposals
  {
    var n := |proposals| - 1;
    if leaf in Removed(proposals[..n]) {
      RemovedLeaves(proposals[..n], leaf);
    }
  }

  lemma {:induction false} AddsAreCounted(proposals: seq<Proposal>)
    requires forall p | p in proposals :: p.Add? ==> p.keyPackage.Some?
    ensures |Added(proposals)| == CountAdds(proposals)
  {
    if proposals != [] {
      AddsAreCounted(proposals[..|proposals| - 1]);
    }
  }

  /** A standard committer is a member that the commit does not remove; a join adds exactly one. */
  lemma ValidCommitLeavesSomeone(c: Commit, r: RosterState, info: CommitInfo)
    requires Valid(c, r, info)
    ensures info.committerLeaf !in info.removed
    ensures if info.kind == Standard then HasLeaf(r.members, info.committerLeaf) else |info.added| == 1
  {
    if info.committerLeaf in info.removed {
      RemovedLeaves(c.proposals, info.committerLeaf);
    }
    AddsAreCounted(c.proposals);
  }

  // ----- Runs -----

  ghost predicate GoodRoster(r: RosterState) {
    Unique(r.members) && 1 <= |r.members| <= MAX_GROUP_MEMBERS
  }

  lemma {:induction false} UniqueConcat(kept: seq<Member>, added: seq<Member>)
    requires Unique(kept) && AdditionsFit(kept, added)
    ensures Unique(kept + added)
  {
    var s := kept + added;
    forall i, j | 0 <= i < j < |s| ensures s[i].leaf != s[j].leaf && s[i].identity != s[j].identity {
      if i < |kept| <= j {
        assert s[i] in kept && s[j] in added;
      }
    }
  }

  lemma SameLength(added: seq<Member>, proposed: seq<Bytes>)
    requires multiset(Identities(added)) == multiset(proposed)
    ensures |added| == |proposed|
  {
    assert |multiset(Identities(added))| == |Identities(added)|;
    assert |multiset(proposed)| == |proposed|;
  }

  /** The committer of a standard commit, with all its data, is still a member afterwards. */
  lemma StandardCommitterStays(c: Commit, r: RosterState, info: CommitInfo, added: seq<Member>, m: Member)
    requires Valid(c, r, info) && info.kind == Standard
    requires m in r.members && m.leaf == info.committerLeaf
    ensures m in Applied(r, info, added).members
  {
    ValidCommitLeavesSomeone(c, r, info);
    WithoutContents(r.members, Arithmetic.Elements(info.removed));
  }

  lemma ApplyKeepsGood(c: Commit, r: RosterState, info: CommitInfo, added: seq<Member>)
    requires GoodRoster(r) && Valid(c, r, info) && Applies(r, info, added)
    ensures GoodRoster(Applied(r, info, added))
  {
    var removed := Arithmetic.Elements(info.removed);
    var kept := Without(r.members, removed);
    WithoutUnique(r.members, removed);
    UniqueConcat(kept, added);
    SameLength(added, info.added);
    ValidCommitLeavesSomeone(c, r, info);
    if info.kind == Standard {
      var m :| m in r.members && m.leaf == info.committerLeaf;
      StandardCommitterStays(c, r, info, added, m);
    }
  }

  /** One validated and applied commit. */
  datatype AppliedCommit = AppliedCommit(commit: Commit, info: CommitInfo, added: seq<Member>)

  ghost predicate Evolution(states: seq<RosterState>, updates: seq<AppliedCommit>, groupId: Bytes, creator: Member) {
    && |states| == |updates| + 1
    && states[0] == RosterState(groupId, 0, [creator])
    && forall i | 0 <= i < |updates| ::
         && Valid(updates[i].commit, states[i], updates[i].info)
         && Applies(states[i], updates[i].info, updates[i].added)
         && states[i + 1] == Applied(states[i], updates[i].info, updates[i].added)
  }

  /**
   Over any run of validated commits applied to a roster created with one member: leaf indices and
   identities stay distinct, the roster is never empty and never above the limit, the group is the
   same, and the epoch counts the applied commits.
   */
  lemma {:induction false} RosterEvolves(states: seq<RosterState>, updates: seq<AppliedCommit>, groupId: Bytes, creator: Member, n: nat)
    requires Evolution(states, updates, groupId, creator) && n <= |updates|
    ensures GoodRoster(states[n]) && states[n].epoch == n && states[n].groupId == groupId
  {
    if n > 0 {
      RosterEvolves(states, updates, groupId, creator, n - 1);
      var u := updates[n - 1];
      ApplyKeepsGood(u.commit, states[n - 1], u.info, u.added);
    }
  }

  /** A commit changes membership by exactly its removals and its proposed additions. */
  lemma MembershipChange(c: Commit, r: RosterState, info: CommitInfo, added: seq<Member>)
    requires Valid(c, r, info) && Applies(r, info, added)
    ensures forall m :: m in Applied(r, info, added).members <==>
      (m in r.members && Remove(m.leaf) !in c.proposals) || m in added
    ensures multiset(Identities(added)) == multiset(Added(c.proposals))
  {
    WithoutContents(r.members, Arithmetic.Elements(info.removed));
    forall leaf ensures leaf in info.removed <==> Remove(leaf) in c.proposals {
      if leaf in info.removed { RemovedLeaves(c.proposals, leaf); }
      if Remove(leaf) in c.proposals { RemovalIsCollected(c.proposals, leaf); }
    }
  }

  lemma {:induction false} RemovalIsCollected(proposals: seq<Proposal>, leaf: nat)
    requires Remove(leaf) in proposals
    ensures leaf in Removed(proposals)
  {
    var n := |proposals| - 1;
    if proposals[n] != Remove(leaf) {
      assert proposals == proposals[..n] + [proposals[n]];
      RemovalIsCollected(proposals[..n], leaf);
    }
  }

  // ----- External joins: who gets in -----

  /** What `authorizer` signs to let `joiner` into the group at the epoch of `r`. */
  function AuthorizationFor(r: RosterState, authorizer: Member, joiner: KeyPackage): Authorization {
    Authorization(1, r.groupId, r.epoch, joiner.identity, joiner.identityX25519, joiner.credential,
                  authorizer.leaf, Some(authorizer.identity))
  }

  /** The join commit of `joiner` at `leaf`, with its two proposals in either order. */
  function JoinCommit(r: RosterState, authorizer: Member, joiner: KeyPackage, leaf: nat, addFirst: bool): Commit {
    var init, add := ExternalInit(false, Some(AuthorizationFor(r, authorizer, joiner))), Add(Some(joiner));
    Commit(r.epoch + 1, r.groupId, if addFirst then [add, init] else [init, add], true, true, leaf, Some(joiner.identity))
  }

  lemma JoinProposals(init: Proposal, add: Proposal, addFirst: bool)
    requires init.ExternalInit? && !init.authorizationEmpty && add.Add? && add.keyPackage.Some?
    ensures var ps := if addFirst then [add, init] else [init, add];
            && JoinStructure(ps) && IsJoin(ps)
            && FirstKeyPackage(ps) == add.keyPackage && FirstExternalInit(ps) == Some(init)
            && Added(ps) == [add.keyPackage.value.identity] && Removed(ps) == []
  {
    var first, second := if addFirst then add else init, if addFirst then init else add;
    TwoProposals(first, second);
    assert init in [first, second];
  }

  lemma TwoProposals(first: Proposal, second: Proposal)
    ensures [first, second][..1] == [first] && [first, second][1..] == [second] && [second][1..] == []
    ensures CountInits([first, second]) == (if first.ExternalInit? then 1 else 0) + (if second.ExternalInit? then 1 else 0)
    ensures CountAdds([first, second]) == (if first.Add? then 1 else 0) + (if second.Add? then 1 else 0)
    ensures Added([first, second]) == Added([first]) + Added([second])
    ensures Removed([first, second]) == Removed([first]) + Removed([second])
  {
    assert [first][..0] == [] && [second][..0] == [];
    assert CountInits([first]) == if first.ExternalInit? then 1 else 0;
    assert CountAdds([first]) == if first.Add? then 1 else 0;
    assert Added([second]) == [] + Added([second]) && Removed([second]) == [] + Removed([second]);
  }

  /** Every joiner with a valid key package whom a current member authorizes for the current epoch gets in. */
  lemma AuthorizedJoinIsValid(r: RosterState, authorizer: Member, joiner: KeyPackage, leaf: nat, addFirst: bool)
    requires r.epoch < MAX_U64 && joiner.valid && !HasLeaf(r.members, leaf)
    requires FindMember(r.members, authorizer.leaf) == Some(authorizer)
    ensures SenderIs(JoinCommit(r, authorizer, joiner, leaf, addFirst), r, joiner.identity, ExternalJoin)
    ensures Valid(JoinCommit(r, authorizer, joiner, leaf, addFirst), r,
                  CommitInfo(leaf, r.epoch + 1, [joiner.identity], [], ExternalJoin))
  {
    assert Authorized(AuthorizationFor(r, authorizer, joiner), joiner, r);
    JoinProposals(ExternalInit(false, Some(AuthorizationFor(r, authorizer, joiner))), Add(Some(joiner)), addFirst);
  }

  /** The authorization and the key package that a join commit carries. */
  ghost predicate Carries(c: Commit, a: Authorization, joiner: KeyPackage) {
    && FirstExternalInit(c.proposals).Some? && FirstExternalInit(c.proposals).value.ExternalInit?
    && FirstExternalInit(c.proposals).value.authorization == Some(a) && FirstKeyPackage(c.proposals) == Some(joiner)
  }

  /** Whoever joins carries an authorization of exactly this joiner, group and epoch, signed by a current member. */
  lemma JoinersAreAuthorized(c: Commit, r: RosterState, info: CommitInfo) returns (a: Authorization, joiner: KeyPackage, authorizer: Member)
    requires Valid(c, r, info) && info.kind == ExternalJoin
    ensures Carries(c, a, joiner) && c.signer == Some(joiner.identity) && info.added == [joiner.identity]
    ensures a.groupId == r.groupId && a.epoch == r.epoch
    ensures a.joiner == joiner.identity && a.joinerX25519 == joiner.identityX25519 && a.joinerCredential == joiner.credential
    ensures authorizer in r.members && a.authorizerLeaf == authorizer.leaf && a.signer == Some(authorizer.identity)
  {
    var sender :| SenderIs(c, r, sender, info.kind) && c.signer == Some(sender);
    a := FirstExternalInit(c.proposals).value.authorization.value;
    joiner := FirstKeyPackage(c.proposals).value;
    authorizer := FindMember(r.members, a.authorizerLeaf).value;
    AddsAreCounted(c.proposals);
    FirstIsAdded(c.proposals);
  }

  lemma {:induction false} AddedFromFront(proposals: seq<Proposal>)
    requires proposals != []
    ensures Added(proposals) ==
      (if proposals[0].Add? && proposals[0].keyPackage.Some? then [proposals[0].keyPackage.value.identity] else []) + Added(proposals[1..])
  {
    if |proposals| == 1 {
      assert proposals[..0] == [] && proposals[1..] == [];
    } else {
      var front := proposals[..|proposals| - 1];
      AddedFromFront(front);
      assert proposals[1..][..|proposals| - 2] == front[1..];
    }
  }

  lemma {:induction false} FirstIsAdded(proposals: seq<Proposal>)
    requires FirstKeyPackage(proposals).Some?
    ensures Added(proposals) != [] && Added(proposals)[0] == FirstKeyPackage(proposals).value.identity
  {
    AddedFromFront(proposals);
    if !(proposals[0].Add? && proposals[0].keyPackage.Some?) {
      FirstIsAdded(proposals[1..]);
    }
  }

  /** One authorization lets in one joiner, into one group at one epoch. */
  lemma AuthorizationIsForOneJoin(c: Commit, r: RosterState, info: CommitInfo, c': Commit, r': RosterState, info': CommitInfo,
                                  a: Authorization, joiner: KeyPackage, joiner': KeyPackage)
    requires Valid(c, r, info) && info.kind == ExternalJoin && Carries(c, a, joiner)
    requires Valid(c', r', info') && info'.kind == ExternalJoin && Carries(c', a, joiner')
    ensures r.groupId == r'.groupId && r.epoch == r'.epoch
    ensures joiner.identity == joiner'.identity && joiner.identityX25519 == joiner'.identityX25519
            && joiner.credential == joiner'.credential
  {
    var _, _, _ := JoinersAreAuthorized(c, r, info);
    var _, _, _ := JoinersAreAuthorized(c', r', info');
  }
}

/** Every run of the replay cache: its bounds, and how long a remembered fingerprint stays refused. */
module ReplayRuns {
  import opened Arithmetic
  import opened ReplayCache
  import opened Sequences

  datatype Op =
    | Reserve(fingerprint: Fingerprint)
    | Remember(fingerprint: Fingerprint)
    | Release(fingerprint: Fingerprint)
    | Forget(fingerprint: Fingerprint)

  function Step(s: CacheState, op: Op): CacheState {
    match op
    case Reserve(f) => Reserved(s, f)
    case Remember(f) => Remembered(s, f)
    case Release(f) => Released(s, f)
    case Forget(f) => Forgotten(s, f)
  }

  function After(s: CacheState, ops: seq<Op>): CacheState {
    if ops == [] then s else Step(After(s, ops[..|ops| - 1]), ops[|ops| - 1])
  }

  predicate RemembersOther(op: Op, f: Fingerprint) {
    op.Remember? && op.fingerprint != f && |op.fingerprint| == HMAC_BYTES
  }

  /** The fingerprints other than `f` that a run remembers. */
  function OthersRemembered(ops: seq<Op>, f: Fingerprint): set<Fingerprint> {
    if ops == [] then {}
    else
      var earlier, last := OthersRemembered(ops[..|ops| - 1], f), ops[|ops| - 1];
      if RemembersOther(last, f) then earlier + {last.fingerprint} else earlier
  }

  // ----- The bounds and the disjointness hold in every run -----

  lemma StepKeepsSound(s: CacheState, op: Op)
    requires Sound(s)
    ensures Sound(Step(s, op))
  {
    var f := op.fingerprint;
    SubsetSize(s.inflight - {f}, s.inflight);
    match op
    case Reserve(_) =>
    case Remember(_) =>
      AppendDistinct(s.order, f);
      TrimKeeps(s.order + [f]);
    case Release(_) =>
    case Forget(_) =>
      DropContents(s.order, f);
  }

  lemma {:induction false} RunKeepsSound(s: CacheState, ops: seq<Op>)
    requires Sound(s)
    ensures Sound(After(s, ops))
  {
    if ops != [] {
      RunKeepsSound(s, ops[..|ops| - 1]);
      StepKeepsSound(After(s, ops[..|ops| - 1]), ops[|ops| - 1]);
    }
  }

  // ----- First in, first out -----

  /** `f` stands at `p` and only fingerprints among `others` stand behind it. */
  ghost predicate Waits(order: seq<Fingerprint>, p: nat, f: Fingerprint, others: set<Fingerprint>) {
    && p < |order| && order[p] == f
    && forall g | g in order[p + 1..] :: g in others
  }

  lemma WaitsThroughDrop(order: seq<Fingerprint>, p: nat, f: Fingerprint, others: set<Fingerprint>, g: Fingerprint)
    returns (q: nat)
    requires Waits(order, p, f, others) && g != f
    ensures Waits(Drop(order, g), q, f, others)
  {
    var front, back := order[..p], order[p + 1..];
    assert order == front + ([f] + back);
    FilterConcat(front, [f] + back, OtherThan(g));
    FilterConcat([f], back, OtherThan(g));
    FilterAll([f], OtherThan(g));
    DropContents(back, g);
    q := |Drop(front, g)|;
    assert Drop(order, g)[q + 1..] == Drop(back, g);
  }

  lemma FewBehind(order: seq<Fingerprint>, p: nat, f: Fingerprint, others: set<Fingerprint>)
    requires Waits(order, p, f, others) && NoDuplicates(order)
    ensures |order| - p - 1 <= |others|
  {
    SuffixDistinct(order, p + 1);
    CardinalityOfElements(order[p + 1..]);
    SubsetSize(Elements(order[p + 1..]), others);
  }

  lemma WaitsThroughTrim(order: seq<Fingerprint>, p: nat, f: Fingerprint, others: set<Fingerprint>) returns (q: nat)
    requires Waits(order, p, f, others) && |order| - p - 1 < MAX_SEEN_HANDSHAKE_INITS
    ensures Waits(Trim(order), q, f, others)
  {
    var gone := |order| - |Trim(order)|;
    q := p - gone;
    assert Trim(order) == order[gone..];
    assert order[gone..][q + 1..] == order[p + 1..];
  }

  /** Queueing another fingerprint leaves `f` in the queue while fewer than the bound stand behind it. */
  lemma WaitsThroughPush(order: seq<Fingerprint>, p: nat, f: Fingerprint, others: set<Fingerprint>, g: Fingerprint)
    returns (q: nat)
    requires Waits(order, p, f, others) && NoDuplicates(order + [g])
    requires |others + {g}| < MAX_SEEN_HANDSHAKE_INITS
    ensures Waits(Trim(order + [g]), q, f, others + {g})
  {
    assert (order + [g])[p + 1..] == order[p + 1..] + [g];
    FewBehind(order + [g], p, f, others + {g});
    q := WaitsThroughTrim(order + [g], p, f, others + {g});
  }

  lemma WaitsThroughStep(s: CacheState, p: nat, f: Fingerprint, others: set<Fingerprint>, op: Op)
    returns (q: nat)
    requires Sound(s) && Waits(s.order, p, f, others) && op != Forget(f)
    requires RemembersOther(op, f) ==> |others + {op.fingerprint}| < MAX_SEEN_HANDSHAKE_INITS
    ensures Waits(Step(s, op).order, q, f, if RemembersOther(op, f) then others + {op.fingerprint} else others)
  {
    q := p;
    var g := op.fingerprint;
    if op.Remember? && |g| == HMAC_BYTES && g !in s.order {
      AppendDistinct(s.order, g);
      q := WaitsThroughPush(s.order, p, f, others, g);
    } else if op.Forget? && |g| == HMAC_BYTES {
      q := WaitsThroughDrop(s.order, p, f, others, g);
    }
  }

  lemma {:induction false} WaitsThroughRun(s: CacheState, f: Fingerprint, ops: seq<Op>) returns (p: nat)
    requires Sound(s) && f !in s.order && |f| == HMAC_BYTES
    requires Forget(f) !in ops
    requires |OthersRemembered(ops, f)| < MAX_SEEN_HANDSHAKE_INITS
    ensures Waits(After(Remembered(s, f), ops).order, p, f, OthersRemembered(ops, f))
  {
    var start := Remembered(s, f);
    assert start == Step(s, Remember(f));
    StepKeepsSound(s, Remember(f));
    if ops == [] {
      p := |start.order| - 1;
    } else {
      var before, last := ops[..|ops| - 1], ops[|ops| - 1];
      SubsetSize(OthersRemembered(before, f), OthersRemembered(ops, f));
      p := WaitsThroughRun(s, f, before);
      RunKeepsSound(start, before);
      p := WaitsThroughStep(After(start, before), p, f, OthersRemembered(before, f), last);
    }
  }

  /**
   A newly remembered fingerprint is refused after every later run that neither forgets it nor
   remembers as many other fingerprints as the cache holds.
   */
  lemma RefusedUntilDisplaced(s: CacheState, f: Fingerprint, ops: seq<Op>)
    requires Sound(s) && f !in s.order && |f| == HMAC_BYTES
    requires Forget(f) !in ops
    requires |OthersRemembered(ops, f)| < MAX_SEEN_HANDSHAKE_INITS
    ensures var t := After(Remembered(s, f), ops); f in t.order && !Unseen(t, f) && Reserved(t, f) == t
  {
    var p := WaitsThroughRun(s, f, ops);
    assert After(Remembered(s, f), ops).order[p] == f;
  }

  // ----- The bound is exact -----

  function Remembering(fs: seq<Fingerprint>): (ops: seq<Op>)
    ensures |ops| == |fs|
    ensures forall i | 0 <= i < |fs| :: ops[i] == Remember(fs[i])
  {
    seq(|fs|, i requires 0 <= i < |fs| => Remember(fs[i]))
  }

  lemma TrimTwice(a: seq<Fingerprint>, g: Fingerprint)
    ensures Trim(Trim(a) + [g]) == Trim(a + [g])
  {
  }

  lemma {:induction false} QueueAfterRemembering(s: CacheState, fs: seq<Fingerprint>)
    requires |s.order| <= MAX_SEEN_HANDSHAKE_INITS
    requires NoDuplicates(s.order + fs)
    requires forall f | f in fs :: |f| == HMAC_BYTES
    ensures After(s, Remembering(fs)).order == Trim(s.order + fs)
  {
    if fs == [] {
      assert s.order + fs == s.order;
    } else {
      var front, last := fs[..|fs| - 1], fs[|fs| - 1];
      var queue := s.order + front;
      assert s.order + fs == queue + [last];
      AppendDistinct(queue, last);
      assert Remembering(fs)[..|fs| - 1] == Remembering(front);
      QueueAfterRemembering(s, front);
      TrimKeeps(queue);
      TrimTwice(queue, last);
    }
  }

  /** As many other new fingerprints as the cache holds displace everything it held. */
  lemma DisplacedByFullTurn(s: CacheState, fs: seq<Fingerprint>)
    requires Sound(s) && |fs| == MAX_SEEN_HANDSHAKE_INITS && NoDuplicates(s.order + fs)
    requires forall f | f in fs :: |f| == HMAC_BYTES
    ensures After(s, Remembering(fs)).order == fs
    ensures forall f | f in s.order :: f !in After(s, Remembering(fs)).order
  {
    QueueAfterRemembering(s, fs);
    SuffixDistinct(s.order + fs, |s.order|);
    assert (s.order + fs)[|s.order|..] == fs;
    assert (s.order + fs)[..|s.order|] == s.order;
  }
}

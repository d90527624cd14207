/**
 One-time prekeys: random and seed-derived generation, replenishment, consumption and the filter
 that restoring sealed state applies. Key material is symbolic: a secret is named by the seed index
 it derives from or by its place in the order in which random keys were generated.
 */
module PreKeys {
  import opened Arithmetic
  import opened LittleEndian
  import opened Outcomes
  import opened Sequences

  const OPK_ID_MODULUS := 0xFFFF_FFFE
  const OPK_ID_OFFSET := 2
  const OPK_ID_RETRY_LIMIT := 64

  datatype Secret = Derived(index: nat) | Random(serial: nat)
  datatype PreKey = PreKey(id: nat, secret: Secret)

  function Candidate(raw: U32): (id: U32)
    ensures id >= OPK_ID_OFFSET
  {
    raw % OPK_ID_MODULUS + OPK_ID_OFFSET
  }

  /** Words below the modulus give distinct candidates, in every place from 2 to the largest word. */
  lemma CandidatesAreSpread(raw: U32, raw': U32)
    requires raw < 0xFFFF_FFFE && raw' < 0xFFFF_FFFE
    ensures Candidate(raw) == raw + 2 && (Candidate(raw) == Candidate(raw') <==> raw == raw')
    ensures raw + 0xFFFF_FFFE < 0x1_0000_0000 ==> Candidate(raw + 0xFFFF_FFFE) == Candidate(raw)
  {
  }

  function Ids(keys: seq<PreKey>): (ids: seq<nat>)
    ensures |ids| == |keys|
    ensures forall i | 0 <= i < |keys| :: ids[i] == keys[i].id
  {
    seq(|keys|, i requires 0 <= i < |keys| => keys[i].id)
  }

  /** No two keys share an id or a secret, and no key has one of the two reserved ids. */
  ghost predicate Proper(keys: seq<PreKey>) {
    && (forall i, j | 0 <= i < j < |keys| :: keys[i].id != keys[j].id && keys[i].secret != keys[j].secret)
    && (forall k | k in keys :: OPK_ID_OFFSET <= k.id < 0x1_0000_0000)
  }

  // ----- Random generation -----

  /** `draw(i, k)` is the random word of attempt `k` for the key at index `i`. */
  type Draws = (nat, nat) -> U32

  ghost predicate Tried(draw: Draws, i: nat, attempts: nat, used: set<nat>) {
    forall k | 0 <= k < attempts :: Candidate(draw(i, k)) in used
  }

  /** `id` is the first candidate for index `i` that is not used. */
  ghost predicate Picked(draw: Draws, i: nat, used: set<nat>, id: nat) {
    exists k: nat | k < OPK_ID_RETRY_LIMIT :: Candidate(draw(i, k)) == id && id !in used && Tried(draw, i, k, used)
  }

  ghost function Used(reserved: set<nat>, ids: seq<nat>): set<nat> {
    reserved + Elements(ids)
  }

  /** Every id is the first candidate outside the reserved ids and the ids before it. */
  ghost predicate Chosen(draw: Draws, reserved: set<nat>, ids: seq<nat>) {
    forall i | 0 <= i < |ids| :: Picked(draw, i, Used(reserved, ids[..i]), ids[i])
  }

  method PickId(draw: Draws, i: nat, used: set<nat>) returns (id: Option<U32>)
    ensures id.Some? ==> OPK_ID_OFFSET <= id.value && Picked(draw, i, used, id.value)
    ensures id.None? <==> Tried(draw, i, OPK_ID_RETRY_LIMIT, used)
  {
    for k := 0 to OPK_ID_RETRY_LIMIT
      invariant Tried(draw, i, k, used)
    {
      var candidate := Candidate(draw(i, k));
      if candidate !in used {
        return Some(candidate);
      }
    }
    return None;
  }

  lemma ChosenExtends(draw: Draws, reserved: set<nat>, ids: seq<nat>, id: nat)
    requires Chosen(draw, reserved, ids) && Picked(draw, |ids|, Used(reserved, ids), id)
    ensures Chosen(draw, reserved, ids + [id])
  {
    var longer := ids + [id];
    forall i | 0 <= i < |longer| ensures Picked(draw, i, Used(reserved, longer[..i]), longer[i]) {
      assert longer[..i] == ids[..i];
      assert ids[..|ids|] == ids;
    }
  }

  /** Chosen ids are pairwise distinct and avoid the reserved ones. */
  lemma ChosenAreDistinct(draw: Draws, reserved: set<nat>, ids: seq<nat>)
    requires Chosen(draw, reserved, ids)
    ensures NoDuplicates(ids)
    ensures forall id | id in ids :: id !in reserved
  {
    forall i, j | 0 <= i < j < |ids| ensures ids[i] != ids[j] {
      assert ids[i] in ids[..j];
      assert Picked(draw, j, Used(reserved, ids[..j]), ids[j]);
    }
  }

  function NewKeys(ids: seq<nat>, serial: nat): (keys: seq<PreKey>)
    ensures |keys| == |ids| && Ids(keys) == ids
    ensures forall i | 0 <= i < |ids| :: keys[i] == PreKey(ids[i], Random(serial + i))
  {
    seq(|ids|, i requires 0 <= i < |ids| => PreKey(ids[i], Random(serial + i)))
  }

  /** Generation stops at the index after `ids`, all of whose candidates are used. */
  ghost predicate Stuck(draw: Draws, reserved: set<nat>, count: nat, ids: seq<nat>) {
    && |ids| < count && Chosen(draw, reserved, ids)
    && Tried(draw, |ids|, OPK_ID_RETRY_LIMIT, Used(reserved, ids))
  }

  /**
   Generate `count` keys whose ids avoid `reserved` and each other, or fail at the first index whose
   attempts all hit a used id.
   */
  method GenerateExcluding(count: nat, reserved: set<nat>, draw: Draws, serial: nat) returns (r: Result<seq<PreKey>>)
    ensures r.Ok? ==>
            && |r.value| == count && Chosen(draw, reserved, Ids(r.value))
            && r.value == NewKeys(Ids(r.value), serial)
            && forall id | id in Ids(r.value) :: OPK_ID_OFFSET <= id < 0x1_0000_0000
    ensures r.Err? ==> exists ids :: Stuck(draw, reserved, count, ids)
  {
    var keys: seq<PreKey>, used: set<nat> := [], reserved;
    ghost var ids: seq<nat> := [];
    for i := 0 to count
      invariant |ids| == i && keys == NewKeys(ids, serial) && used == Used(reserved, ids)
      invariant Chosen(draw, reserved, ids)
      invariant forall id | id in ids :: OPK_ID_OFFSET <= id < 0x1_0000_0000
    {
      var id := PickId(draw, i, used);
      if id.None? {
        assert Stuck(draw, reserved, count, ids);
        return Err(KeyGeneration("Could not find an unused one-time prekey ID"));
      }
      ChosenExtends(draw, reserved, ids, id.value);
      assert Elements(ids + [id.value]) == Elements(ids) + {id.value};
      ids := ids + [id.value];
      used := used + {id.value};
      keys := keys + [PreKey(id.value, Random(serial + i))];
    }
    return Ok(keys);
  }

  // ----- Seed-derived generation -----

  /** `derive(i)` is the leading word of the seed derived at index `i`. */
  type Derivation = nat -> U32

  function SeedIds(derive: Derivation, count: nat): (ids: seq<nat>)
    ensures |ids| == count
    ensures forall i | 0 <= i < count :: ids[i] == Candidate(derive(i))
  {
    seq<nat>(count, i requires 0 <= i < count => Candidate(derive(i)))
  }

  function SeedKeys(derive: Derivation, count: nat): (keys: seq<PreKey>)
    ensures |keys| == count
    ensures forall i | 0 <= i < count :: keys[i] == PreKey(Candidate(derive(i)), Derived(count + i))
  {
    seq(count, i requires 0 <= i < count => PreKey(Candidate(derive(i)), Derived(count + i)))
  }

  method GenerateFromSeed(derive: Derivation, count: nat) returns (r: Result<seq<PreKey>>)
    ensures r.Ok? <==> NoDuplicates(SeedIds(derive, count))
    ensures r.Ok? ==> r.value == SeedKeys(derive, count) && Proper(r.value)
  {
    var keys: seq<PreKey>, used: set<nat> := [], {};
    ghost var ids: seq<nat> := [];
    for i := 0 to count
      invariant ids == SeedIds(derive, count)[..i] && keys == SeedKeys(derive, count)[..i]
      invariant used == Elements(ids) && NoDuplicates(ids)
    {
      var id := Candidate(derive(i));
      AppendDistinct(ids, id);
      assert SeedIds(derive, count)[..i + 1] == ids + [id];
      if id in used {
        assert !NoDuplicates(SeedIds(derive, count)[..i + 1]);
        return Err(KeyGeneration("Deterministic OPK ID collision"));
      }
      ids := ids + [id];
      used := used + {id};
      keys := keys + [PreKey(id, Derived(count + i))];
    }
    assert forall i | 0 <= i < count :: keys[i].id == ids[i];
    return Ok(keys);
  }

  // ----- The pool -----

  function IdSet(keys: seq<PreKey>): set<nat> {
    set k | k in keys :: k.id
  }

  /** The position of the first key with the given id. */
  function Position(keys: seq<PreKey>, id: nat): (p: Option<nat>)
    ensures p.None? <==> id !in IdSet(keys)
    ensures p.Some? ==> p.value < |keys| && keys[p.value].id == id
  {
    if keys == [] then None
    else if keys[0].id == id then Some(0)
    else
      assert keys == [keys[0]] + keys[1..];
      match Position(keys[1..], id)
      case None => None
      case Some(p) => Some(p + 1)
  }

  function Listed(ids: set<nat>): PreKey -> bool {
    (k: PreKey) => k.id in ids
  }

  /** The keys whose ids are listed, in order. */
  function Retained(keys: seq<PreKey>, ids: set<nat>): seq<PreKey> {
    Filter(keys, Listed(ids))
  }

  lemma AppendKey(keys: seq<PreKey>, k: PreKey)
    requires OPK_ID_OFFSET <= k.id < 0x1_0000_0000
    ensures Proper(keys + [k]) <==> Proper(keys) && forall j | j in keys :: j.id != k.id && j.secret != k.secret
  {
    var longer := keys + [k];
    assert longer[|keys|] == k;
    assert forall i | 0 <= i < |keys| :: longer[i] == keys[i] && longer[i] in keys;
    if Proper(longer) {
      forall i, j | 0 <= i < j < |keys| ensures keys[i].id != keys[j].id && keys[i].secret != keys[j].secret {
        assert longer[i].id != longer[j].id;
      }
      forall j | j in keys ensures OPK_ID_OFFSET <= j.id < 0x1_0000_0000 {
        assert j in longer;
      }
    }
  }

  lemma {:induction false} RetainedContents(keys: seq<PreKey>, ids: set<nat>)
    ensures forall k :: k in Retained(keys, ids) <==> k in keys && k.id in ids
    ensures Proper(keys) ==> Proper(Retained(keys, ids))
  {
    FilterContents(keys, Listed(ids));
    if keys != [] {
      var front, last := keys[..|keys| - 1], keys[|keys| - 1];
      RetainedContents(front, ids);
      assert keys == front + [last];
      if Proper(keys) {
        AppendKey(front, last);
        AppendKey(Retained(front, ids), last);
      }
    }
  }

  lemma RetainAround(front: seq<PreKey>, k: PreKey, back: seq<PreKey>, ids: set<nat>)
    requires k.id !in ids
    requires forall j | j in front :: j.id in ids
    requires forall j | j in back :: j.id in ids
    ensures Retained(front + ([k] + back), ids) == front + back
  {
    FilterConcat(front, [k] + back, Listed(ids));
    FilterConcat([k], back, Listed(ids));
    FilterContents([k], Listed(ids));
    FilterAll(front, Listed(ids));
    FilterAll(back, Listed(ids));
  }

  lemma SplitAt<T>(s: seq<T>, p: nat)
    requires p < |s|
    ensures s == s[..p] + ([s[p]] + s[p + 1..])
  {
  }

  lemma OthersDiffer(keys: seq<PreKey>, p: nat, k: PreKey)
    requires Proper(keys) && p < |keys|
    requires k in keys[..p] || k in keys[p + 1..]
    ensures k.id in IdSet(keys) - {keys[p].id}
  {
    if k in keys[..p] {
      var i :| 0 <= i < p && keys[i] == k;
      assert k in keys;
    } else {
      var i :| 0 <= i < |keys| - p - 1 && keys[p + 1..][i] == k;
      assert keys[p + 1 + i] == k;
    }
  }

  /** Taking a key out of its position keeps exactly the keys with the other ids. */
  lemma RemovalRetainsOthers(keys: seq<PreKey>, p: nat)
    requires Proper(keys) && p < |keys|
    ensures keys[..p] + keys[p + 1..] == Retained(keys, IdSet(keys) - {keys[p].id})
  {
    var others := IdSet(keys) - {keys[p].id};
    forall k | k in keys[..p] ensures k.id in others { OthersDiffer(keys, p, k); }
    forall k | k in keys[p + 1..] ensures k.id in others { OthersDiffer(keys, p, k); }
    SplitAt(keys, p);
    RetainAround(keys[..p], keys[p], keys[p + 1..], others);
  }
}

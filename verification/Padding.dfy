/**
 Message padding to whole blocks and its branch-free removal. Machine words are natural numbers below
 2^64 with bitwise operations defined bit by bit; bytes are bit vectors.
 */
module Padding {
  import opened Arithmetic
  import opened Octets
  import opened Outcomes

  const MESSAGE_PADDING_BLOCK_SIZE := 64
  const WORD := 0x1_0000_0000_0000_0000
  const HALF_WORD := 0x8000_0000_0000_0000

  // ----- Words -----

  function And(x: nat, y: nat): nat {
    if x == 0 || y == 0 then 0 else 2 * And(x / 2, y / 2) + if x % 2 == 1 && y % 2 == 1 then 1 else 0
  }

  function Or(x: nat, y: nat): nat {
    if x == 0 then y else if y == 0 then x else 2 * Or(x / 2, y / 2) + if x % 2 == 1 || y % 2 == 1 then 1 else 0
  }

  function Not(x: nat): nat
    requires x < WORD
  {
    WORD - 1 - x
  }

  function WrappingSub(x: nat, y: nat): (d: nat)
    requires x < WORD && y < WORD
    ensures d < WORD
  {
    if x >= y then x - y else x - y + WORD
  }

  /** Bit by bit, what two words share and what either has add up to both. */
  lemma {:induction false} AndPlusOr(x: nat, y: nat)
    ensures And(x, y) + Or(x, y) == x + y
  {
    if x != 0 && y != 0 {
      AndPlusOr(x / 2, y / 2);
    }
  }

  lemma {:induction false} AndIsShared(x: nat, y: nat, n: nat)
    ensures And(x, y) / Power2(n) % 2 == if x / Power2(n) % 2 == 1 && y / Power2(n) % 2 == 1 then 1 else 0
  {
    if n > 0 {
      AndIsShared(x / 2, y / 2, n - 1);
      HalvedThenShifted(And(x, y), n);
      HalvedThenShifted(x, n);
      HalvedThenShifted(y, n);
    }
  }

  lemma HalvedThenShifted(x: nat, n: nat)
    requires n > 0
    ensures x / Power2(n) == x / 2 / Power2(n - 1)
  {
    var p := Power2(n - 1);
    var q, r := x / 2 / p, x / 2 % p;
    assert x == 2 * (p * q + r) + x % 2;
    assert x == (2 * p) * q + (2 * r + x % 2);
    ModulusUnique(x, 2 * p, q, 2 * r + x % 2);
  }

  function Power2(n: nat): (p: nat)
    ensures p > 0
  {
    if n == 0 then 1 else 2 * Power2(n - 1)
  }

  lemma {:induction false} AndOnes(x: nat, n: nat)
    requires x < Power2(n)
    ensures And(x, Power2(n) - 1) == x
  {
    if x != 0 {
      assert (Power2(n) - 1) / 2 == Power2(n - 1) - 1 && (Power2(n) - 1) % 2 == 1;
      AndOnes(x / 2, n - 1);
    }
  }

  lemma WordIsPower()
    ensures Power2(64) == WORD
  {
    assert Power2(8) == 0x100;
    assert Power2(16) == 0x1_0000;
    assert Power2(24) == 0x100_0000;
    assert Power2(32) == 0x1_0000_0000;
    assert Power2(40) == 0x100_0000_0000;
    assert Power2(48) == 0x1_0000_0000_0000;
    assert Power2(56) == 0x100_0000_0000_0000;
  }

  /** Selecting by an all-ones or all-zeros mask. */
  lemma Select(x: nat, y: nat, pick: bool)
    requires x < WORD && y < WORD
    ensures var mask := if pick then WORD - 1 else 0;
            Or(And(x, Not(mask)), And(y, mask)) == if pick then y else x
  {
    WordIsPower();
    AndOnes(x, 64);
    AndOnes(y, 64);
  }

  // ----- Bytes -----

  /** One if any bit of the byte is set, computed in 16 bits. */
  function NonzeroBit(diff: Octet): bv16 {
    var wide := diff as bv16;
    ((wide | (0 - wide)) >> 7) & 1
  }

  lemma NonzeroBitIsExact(diff: Octet)
    ensures NonzeroBit(diff) == if diff == 0 then 0 else 1
  {
  }

  lemma SentinelDiffers(byte: Octet)
    ensures byte ^ 0x01 == 0 <==> byte == 0x01
  {
  }

  lemma Accumulates(seen: Octet, byte: Octet)
    ensures seen | (byte & 0xFF) == 0 <==> seen == 0 && byte == 0
    ensures seen | (byte & 0x00) == seen
  {
  }

  // ----- The comparison mask -----

  /** The sign of `b - a` in two's complement, spread over a byte. */
  function CtGtMask(a: nat, b: nat): Octet
    requires a < WORD && b < WORD
  {
    var diff := WrappingSub(b, a);
    var signed: int := if diff < HALF_WORD then diff else diff - WORD;
    var shifted := signed / HALF_WORD;
    if shifted % 256 == 255 then 0xFF else 0x00
  }

  /** The mask tells `a > b` exactly when the two words are within half the word range of each other. */
  lemma GtMaskIsExactWithinHalfRange(a: nat, b: nat)
    requires a < WORD && b < WORD
    ensures CtGtMask(a, b) == (if a > b then 0xFF else 0x00) <==> -HALF_WORD < a - b <= HALF_WORD
  {
    var diff := WrappingSub(b, a);
    if diff < HALF_WORD {
      assert diff / HALF_WORD == 0;
    } else {
      assert (diff - WORD) / HALF_WORD == -1;
    }
  }

  /** Beyond that range it is wrong: zero is not greater than half the word range. */
  lemma GtMaskFailsFarApart()
    ensures CtGtMask(0, HALF_WORD) == 0xFF
  {
    assert (HALF_WORD - WORD) / HALF_WORD == -1;
  }

  // ----- The specification -----

  predicate ZeroFrom(s: seq<Octet>, k: nat) {
    forall i | k <= i < |s| :: s[i] == 0
  }

  /** `padded` is `p`, the byte 0x01, and then only zeros. */
  ghost predicate Pads(padded: seq<Octet>, p: seq<Octet>) {
    |p| < |padded| && padded[..|p|] == p && padded[|p|] == 0x01 && ZeroFrom(padded, |p| + 1)
  }

  lemma PadsIsUnique(padded: seq<Octet>, p: seq<Octet>, q: seq<Octet>)
    requires Pads(padded, p) && Pads(padded, q)
    ensures p == q
  {
    assert padded[|p|] == padded[|q|] == 0x01;
  }

  function PaddedLength(n: nat): (r: nat)
    ensures r % MESSAGE_PADDING_BLOCK_SIZE == 0 && n < r <= n + MESSAGE_PADDING_BLOCK_SIZE
  {
    var withSentinel := n + 1;
    (withSentinel + MESSAGE_PADDING_BLOCK_SIZE - 1) / MESSAGE_PADDING_BLOCK_SIZE * MESSAGE_PADDING_BLOCK_SIZE
  }

  method Pad(plaintext: seq<Octet>) returns (buf: seq<Octet>)
    ensures Pads(buf, plaintext)
    ensures |buf| % MESSAGE_PADDING_BLOCK_SIZE == 0 && |buf| <= |plaintext| + MESSAGE_PADDING_BLOCK_SIZE
  {
    var length := PaddedLength(|plaintext|);
    buf := plaintext + [0x01];
    buf := buf + seq(length - |buf|, _ => 0);
  }

  // ----- The branch-free removal -----

  /** `found` and `position` after the bytes below `n`: whether a 0x01 was seen, and the last one. */
  ghost predicate LastSentinel(s: seq<Octet>, n: nat, found: nat, position: nat) {
    && n <= |s| && found <= 1
    && (found == 0 ==> position == 0 && forall i | 0 <= i < n :: s[i] != 0x01)
    && (found == 1 ==> position < n && s[position] == 0x01 && forall i | position < i < n :: s[i] != 0x01)
  }

  /** The scan for the last sentinel: every step computes a mask and selects by it. */
  method FindLastSentinel(padded: seq<Octet>) returns (found: nat, position: nat)
    requires |padded| < HALF_WORD
    ensures LastSentinel(padded, |padded|, found, position)
  {
    found, position := 0, 0;
    for i := 0 to |padded|
      invariant LastSentinel(padded, i, found, position) && position <= i
    {
      var diff := padded[i] ^ 0x01;
      var isNonzero: nat := if NonzeroBit(diff) == 1 then 1 else 0;
      var mask := WrappingSub(isNonzero, 1);
      SentinelMask(padded[i]);
      Select(position, i, padded[i] == 0x01);
      FlagSelect(found, padded[i] == 0x01);
      position := Or(And(position, Not(mask)), And(i, mask));
      found := Or(found, And(mask, 1));
    }
  }

  lemma SentinelMask(byte: Octet)
    ensures NonzeroBit(byte ^ 0x01) == if byte == 0x01 then 0 else 1
  {
    SentinelDiffers(byte);
    NonzeroBitIsExact(byte ^ 0x01);
  }

  lemma FlagSelect(found: nat, pick: bool)
    requires found <= 1
    ensures var mask := if pick then WORD - 1 else 0; Or(found, And(mask, 1)) == if pick then 1 else found
  {
    assert And(WORD - 1, 1) == 1;
  }

  method NonzeroAfter(padded: seq<Octet>, position: nat) returns (seen: Octet)
    requires position <= |padded| < HALF_WORD
    ensures seen == 0 <==> ZeroFrom(padded, position + 1)
  {
    seen := 0;
    for i := 0 to |padded|
      invariant seen == 0 <==> ZeroBetween(padded, position + 1, i)
    {
      GtMaskIsExactWithinHalfRange(i, position);
      Accumulates(seen, padded[i]);
      var afterSentinel := CtGtMask(i, position);
      seen := seen | (padded[i] & afterSentinel);
    }
  }

  ghost predicate ZeroBetween(s: seq<Octet>, k: nat, n: nat)
    requires n <= |s|
  {
    forall i | k <= i < n :: s[i] == 0
  }

  /** Accepts exactly the nonempty block-aligned buffers of the padded form, and returns what was padded. */
  method Unpad(padded: seq<Octet>) returns (r: Result<seq<Octet>>)
    requires |padded| < HALF_WORD
    ensures r.Ok? <==> padded != [] && |padded| % MESSAGE_PADDING_BLOCK_SIZE == 0 && exists p :: Pads(padded, p)
    ensures r.Ok? ==> Pads(padded, r.value)
  {
    if padded == [] {
      return Err(ProtocolError.Decode("Invalid padding: empty input"));
    }
    if |padded| % MESSAGE_PADDING_BLOCK_SIZE != 0 {
      return Err(ProtocolError.Decode("Invalid padding: not block-aligned"));
    }
    var found, position := FindLastSentinel(padded);
    if found == 0 {
      PadsNeedsSentinel(padded);
      return Err(ProtocolError.Decode("Invalid padding: no sentinel byte found"));
    }
    var seen := NonzeroAfter(padded, position);
    PadsAtLastSentinel(padded, position);
    if seen != 0 {
      return Err(ProtocolError.Decode("Invalid padding: non-zero bytes after sentinel"));
    }
    return Ok(padded[..position]);
  }

  lemma PadsNeedsSentinel(padded: seq<Octet>)
    requires forall i | 0 <= i < |padded| :: padded[i] != 0x01
    ensures forall p :: !Pads(padded, p)
  {
    forall p ensures !Pads(padded, p) {
      if |p| < |padded| {
        assert padded[|p|] != 0x01;
      }
    }
  }

  lemma PadsAtLastSentinel(padded: seq<Octet>, position: nat)
    requires LastSentinel(padded, |padded|, 1, position)
    ensures (exists p :: Pads(padded, p)) <==> ZeroFrom(padded, position + 1)
    ensures ZeroFrom(padded, position + 1) <==> Pads(padded, padded[..position])
  {
    var front := padded[..position];
    assert ZeroFrom(padded, position + 1) <==> Pads(padded, front);
    forall p | Pads(padded, p) ensures |p| == position {
      assert padded[|p|] == 0x01 && padded[position] == 0x01;
    }
  }

  /** Padding is undone for every message, also for one that contains 0x01 bytes. */
  method RoundTrip(plaintext: seq<Octet>) returns (r: Result<seq<Octet>>)
    requires |plaintext| + MESSAGE_PADDING_BLOCK_SIZE < HALF_WORD
    ensures r == Ok(plaintext)
  {
    var padded := Pad(plaintext);
    r := Unpad(padded);
    PadsIsUnique(padded, r.value, plaintext);
  }
}

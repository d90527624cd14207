/**
 Threshold secret sharing over GF(2^8): the polynomial evaluation, interpolation, split and
 reconstruct loops, the round trip, and perfect secrecy below the threshold.

 Random coefficients are a parameter, one row of `threshold - 1` bytes per secret byte.  The
 keyed hash is a parameter too; nothing but its being a function is used.
 */
module Shamir {
  import opened Octets
  import opened Outcomes
  import opened Arithmetic
  import opened Fields
  import opened Polynomials
  import opened Gf256

  const MAGIC_BYTES: seq<Octet> := [0xEC, 0x11, 0x1C, 0x00]
  const SHARE_HEADER_SIZE := 5
  const MIN_SHARE_SIZE := 6
  const MAX_SHARE_SIZE := 65536
  const HMAC_BYTES := 32

  type Bytes = seq<Octet>

  // The loops take the field as a parameter `f` and use no more of it than its operations and
  // that its addition is exclusive or; the theorems are about `BYTES`.

  // ----- Evaluation -----

  method EvaluatePolynomial(f: Field<Octet>, coefficients: Bytes, x: Octet) returns (result: Octet)
    requires IsField(f)
    ensures result == Eval(f, coefficients, x)
  {
    result := f.zero;
    var i := |coefficients|;
    while i > 0
      invariant 0 <= i <= |coefficients|
      invariant result == Eval(f, coefficients[i..], x)
    {
      i := i - 1;
      assert coefficients[i..][1..] == coefficients[i + 1..];
      MulComm(f, result, x);
      AddComm(f.zero, f.add, coefficients[i], f.mul(x, result));
      result := f.add(f.mul(result, x), coefficients[i]);
    }
    assert coefficients[0..] == coefficients;
  }

  // ----- Interpolation -----

  /** 0xFF when the flag byte is one, 0x00 when it is zero. */
  function WrappingNeg(flag: Octet): Octet { 0 - flag }

  function Select(mask: Octet, a: Octet, b: Octet): Octet { (a & mask) | (b & !mask) }

  lemma SelectByFlag(flag: Octet, a: Octet, b: Octet)
    requires flag == 0 || flag == 1
    ensures Select(WrappingNeg(flag), a, b) == if flag == 1 then a else b
  {
  }

  lemma FactorByFlag(a: Octet)
    ensures a | WrappingNeg(0) == a
  {
  }

  /** One masked step of a numerator or denominator product: skip the factor when `same`. */
  method MaskedStep(f: Field<Octet>, product: Octet, a: Octet, b: Octet, same: bool) returns (next: Octet)
    requires f.add == Xor
    ensures next == if same then product else f.mul(product, f.add(a, b))
  {
    var isSame: Octet := if same then 1 else 0;
    var mask := WrappingNeg(isSame);
    var factor := (a ^ b) | mask;
    FactorByFlag(a ^ b);
    SelectByFlag(isSame, product, f.mul(product, factor));
    next := Select(mask, product, f.mul(product, factor));
  }

  /** The inner loop: the numerator over the denominator of term `i`. */
  method LagrangeTerm(f: Field<Octet>, xs: Bytes, ys: Bytes, i: nat, x: Octet) returns (term: Octet)
    requires f.add == Xor && i < |xs| == |ys|
    ensures term == Term(f, xs, ys, i, x)
  {
    var numerator := ys[i];
    var denominator: Octet := f.one;
    for j := 0 to |xs|
      invariant numerator == Numerator(f, xs, i, j, x, ys[i])
      invariant denominator == Numerator(f, xs, i, j, xs[i], f.one)
    {
      numerator := MaskedStep(f, numerator, x, xs[j], i == j);
      denominator := MaskedStep(f, denominator, xs[i], xs[j], i == j);
    }
    term := f.mul(numerator, f.inv(denominator));
  }

  method LagrangeInterpolate(f: Field<Octet>, xs: Bytes, ys: Bytes, x: Octet) returns (r: Result<Octet>)
    requires f.add == Xor
    ensures |xs| != |ys| ==> r.Err?
    ensures |xs| == |ys| ==> r == Ok(Lagrange(f, xs, ys, x))
  {
    var n := |xs|;
    if n != |ys| {
      return Err(Generic("x/y length mismatch in Lagrange interpolation"));
    }
    var result: Octet := f.zero;
    for i := 0 to n
      invariant result == Sum(f, Terms(f, xs, ys, x), i)
    {
      var term := LagrangeTerm(f, xs, ys, i, x);
      result := f.add(result, term);
    }
    return Ok(result);
  }

  // ----- Splitting -----

  /** The x-coordinate of share `i`. */
  function ShareX(i: nat): Octet
    requires i < 255
  {
    (i + 1) as bv8
  }

  lemma ShareXValue(i: nat)
    requires i < 255
    ensures ShareX(i) as int == i + 1
  {
    IntAsByte(i + 1);
  }

  lemma ShareXDistinct(i: nat, j: nat)
    requires i < 255 && j < 255
    ensures ShareX(i) != 0
    ensures ShareX(i) == ShareX(j) ==> i == j
  {
    ShareXValue(i);
    ShareXValue(j);
  }

  /** One row of `threshold - 1` random coefficients for every secret byte. */
  ghost predicate CoefficientsFor(secret: Bytes, threshold: nat, rows: seq<Bytes>) {
    |rows| == |secret| && forall b | 0 <= b < |rows| :: |rows[b]| + 1 == threshold
  }

  /** The first `n` values of share `i`. */
  function ShareValues(f: Field<Octet>, secret: Bytes, rows: seq<Bytes>, i: nat, n: nat): (r: Bytes)
    requires |rows| == |secret| && i < 255 && n <= |secret|
    ensures |r| == n && forall b | 0 <= b < n :: r[b] == Eval(f, [secret[b]] + rows[b], ShareX(i))
  {
    if n == 0 then []
    else ShareValues(f, secret, rows, i, n - 1) + [Eval(f, [secret[n - 1]] + rows[n - 1], ShareX(i))]
  }

  /** Share `i`: magic bytes, x-coordinate, then one value per secret byte. */
  function Share(f: Field<Octet>, secret: Bytes, rows: seq<Bytes>, i: nat): Bytes
    requires |rows| == |secret| && i < 255
  {
    MAGIC_BYTES + [ShareX(i)] + ShareValues(f, secret, rows, i, |secret|)
  }

  predicate SplitAccepts(secret: Bytes, threshold: nat, shareCount: nat, authKey: Bytes) {
    2 <= threshold <= shareCount && 0 < |secret| <= MAX_SHARE_SIZE && |authKey| == HMAC_BYTES
  }

  /** The inner loop of the split: every share gains its value for one more secret byte. */
  method PushColumn(f: Field<Octet>, shares: seq<Bytes>, coefficients: Bytes) returns (next: seq<Bytes>)
    requires IsField(f) && |shares| <= 255
    ensures |next| == |shares|
    ensures forall i | 0 <= i < |shares| :: next[i] == shares[i] + [Eval(f, coefficients, ShareX(i))]
  {
    next := shares;
    for i := 0 to |shares|
      invariant |next| == |shares|
      invariant forall k | 0 <= k < i :: next[k] == shares[k] + [Eval(f, coefficients, ShareX(k))]
      invariant forall k | i <= k < |shares| :: next[k] == shares[k]
    {
      var y := EvaluatePolynomial(f, coefficients, ShareX(i));
      next := next[i := next[i] + [y]];
    }
  }

  method Split(f: Field<Octet>, secret: Bytes, threshold: nat, shareCount: nat, authKey: Bytes,
               rows: seq<Bytes>, hmac: (Bytes, Bytes) -> Bytes) returns (r: Result<seq<Bytes>>)
    requires IsField(f) && threshold < 256 && shareCount < 256
    requires threshold > 0 ==> CoefficientsFor(secret, threshold, rows)
    ensures r.Ok? <==> SplitAccepts(secret, threshold, shareCount, authKey)
    ensures r.Ok? ==> |r.value| == shareCount + 1 && r.value[shareCount] == hmac(authKey, secret)
    ensures r.Ok? ==> forall i | 0 <= i < shareCount :: r.value[i] == Share(f, secret, rows, i)
  {
    if threshold < 2 {
      return Err(InvalidInput("Threshold must be at least 2"));
    }
    if shareCount < threshold {
      return Err(InvalidInput("share_count must be >= threshold"));
    }
    if |secret| == 0 || |secret| > MAX_SHARE_SIZE {
      return Err(InvalidInput("Invalid secret length"));
    }
    if |authKey| != HMAC_BYTES {
      return Err(InvalidInput("Auth key must be 32 bytes"));
    }
    var shares := seq(shareCount, (i: nat) requires i < 255 => MAGIC_BYTES + [ShareX(i)]);
    for b := 0 to |secret|
      invariant |shares| == shareCount
      invariant forall i | 0 <= i < shareCount ::
        shares[i] == MAGIC_BYTES + [ShareX(i)] + ShareValues(f, secret, rows, i, b)
    {
      shares := PushColumn(f, shares, [secret[b]] + rows[b]);
    }
    return Ok(shares + [hmac(authKey, secret)]);
  }

  // ----- Reconstruction -----

  /** The x-coordinates that the shares carry. */
  function XValues(data: seq<Bytes>): (r: Bytes)
    requires forall k | 0 <= k < |data| :: |data[k]| > 4
    ensures |r| == |data| && forall k | 0 <= k < |data| :: r[k] == data[k][4]
  {
    seq(|data|, k requires 0 <= k < |data| => data[k][4])
  }

  /** The values that the shares carry for secret byte `b`. */
  function YValues(data: seq<Bytes>, b: nat): (r: Bytes)
    requires forall k | 0 <= k < |data| :: |data[k]| > SHARE_HEADER_SIZE + b
    ensures |r| == |data| && forall k | 0 <= k < |data| :: r[k] == data[k][SHARE_HEADER_SIZE + b]
  {
    seq(|data|, k requires 0 <= k < |data| => data[k][SHARE_HEADER_SIZE + b])
  }

  /** Data shares of one common length between the two bounds, all starting with the magic bytes. */
  ghost predicate WellFormed(data: seq<Bytes>) {
    && |data| > 0
    && MIN_SHARE_SIZE <= |data[0]| <= SHARE_HEADER_SIZE + MAX_SHARE_SIZE
    && forall k | 0 <= k < |data| :: |data[k]| == |data[0]| && data[k][..4] == MAGIC_BYTES
  }

  /** The bytes that interpolation at zero gives, before authentication. */
  function Interpolated(f: Field<Octet>, data: seq<Bytes>): (r: Bytes)
    requires WellFormed(data)
    ensures |r| == |data[0]| - SHARE_HEADER_SIZE
    ensures forall b | 0 <= b < |r| :: r[b] == Lagrange(f, XValues(data), YValues(data, b), f.zero)
  {
    seq(|data[0]| - SHARE_HEADER_SIZE,
        b requires 0 <= b < |data[0]| - SHARE_HEADER_SIZE && WellFormed(data) =>
          Lagrange(f, XValues(data), YValues(data, b), f.zero))
  }

  /** Exactly the share lists that `Reconstruct` accepts. */
  ghost predicate ReconstructAccepts(f: Field<Octet>, shares: seq<Bytes>, authKey: Bytes, threshold: nat, hmac: (Bytes, Bytes) -> Bytes) {
    && |shares| >= 2 && |authKey| == HMAC_BYTES
    && var data, tag := shares[..|shares| - 1], shares[|shares| - 1];
    && |data| >= threshold
    && WellFormed(data)
    && NoDuplicates(XValues(data))
    && hmac(authKey, Interpolated(f, data)) == tag
  }

  /** The format check over all data shares. */
  method CheckFormat(data: seq<Bytes>) returns (ok: bool)
    requires |data| > 0 && |data[0]| >= MIN_SHARE_SIZE
    ensures ok <==> forall k | 0 <= k < |data| :: |data[k]| == |data[0]| && data[k][..4] == MAGIC_BYTES
  {
    for k := 0 to |data|
      invariant forall m | 0 <= m < k :: |data[m]| == |data[0]| && data[m][..4] == MAGIC_BYTES
    {
      if |data[k]| != |data[0]| || data[k][0..4] != MAGIC_BYTES {
        return false;
      }
    }
    return true;
  }

  /** The duplicate check through a 256-entry table of flags. */
  method CheckDistinct(xs: Bytes) returns (ok: bool)
    ensures ok <==> NoDuplicates(xs)
  {
    var seen := new bool[256](_ => false);
    for k := 0 to |xs|
      invariant forall m, n | 0 <= m < n < k :: xs[m] != xs[n]
      invariant forall b: Octet :: seen[Index(b)] <==> b in xs[..k]
    {
      if seen[Index(xs[k])] {
        assert xs[k] in xs[..k];
        return false;
      }
      forall b: Octet ensures Index(b) == Index(xs[k]) ==> b == xs[k] {
        ByteAsInt(b, xs[k]);
      }
      assert xs[..k + 1] == xs[..k] + [xs[k]];
      seen[Index(xs[k])] := true;
    }
    return true;
  }

  /** The interpolation loop over all secret bytes. */
  method InterpolateAll(f: Field<Octet>, data: seq<Bytes>) returns (secret: Bytes)
    requires f.add == Xor && WellFormed(data)
    ensures secret == Interpolated(f, data)
  {
    var n := |data[0]| - SHARE_HEADER_SIZE;
    secret := seq(n, _ => f.zero);
    for b := 0 to n
      invariant |secret| == n
      invariant forall k | 0 <= k < b :: secret[k] == Lagrange(f, XValues(data), YValues(data, k), f.zero)
    {
      var y := LagrangeInterpolate(f, XValues(data), YValues(data, b), f.zero);
      secret := secret[b := y.value];
    }
  }

  method Reconstruct(f: Field<Octet>, shares: seq<Bytes>, authKey: Bytes, threshold: nat,
                     hmac: (Bytes, Bytes) -> Bytes) returns (r: Result<Bytes>)
    requires f.add == Xor
    ensures r.Ok? <==> ReconstructAccepts(f, shares, authKey, threshold, hmac)
    ensures r.Ok? ==> r.value == Interpolated(f, shares[..|shares| - 1])
  {
    if |shares| < 2 {
      return Err(InvalidInput("Need at least one data share plus auth tag"));
    }
    if |authKey| != HMAC_BYTES {
      return Err(InvalidInput("Auth key must be 32 bytes"));
    }
    var tag := shares[|shares| - 1];
    var data := shares[..|shares| - 1];
    if |data| < threshold {
      return Err(InvalidInput("Not enough shares"));
    }
    if |data[0]| < MIN_SHARE_SIZE {
      return Err(InvalidInput("Share too short"));
    }
    var formatted := CheckFormat(data);
    if !formatted {
      return Err(InvalidInput("Invalid share format"));
    }
    if |data[0]| - SHARE_HEADER_SIZE > MAX_SHARE_SIZE {
      return Err(InvalidInput("Invalid secret length"));
    }
    var distinct := CheckDistinct(XValues(data));
    if !distinct {
      return Err(InvalidInput("Duplicate x-coordinate in shares"));
    }
    var secret := InterpolateAll(f, data);
    if hmac(authKey, secret) != tag {
      return Err(InvalidInput("Share authentication failed"));
    }
    return Ok(secret);
  }

  // ----- Round trip -----

  ghost predicate IsSelection(picks: seq<nat>, shareCount: nat) {
    NoDuplicates(picks) && forall k | 0 <= k < |picks| :: picks[k] < shareCount
  }

  /** Share bytes split into header and values. */
  lemma ShareParts(f: Field<Octet>, secret: Bytes, rows: seq<Bytes>, i: nat)
    requires |rows| == |secret| && i < 255
    ensures var s := Share(f, secret, rows, i);
      && |s| == SHARE_HEADER_SIZE + |secret| && s[..4] == MAGIC_BYTES && s[4] == ShareX(i)
      && forall b | 0 <= b < |secret| :: s[SHARE_HEADER_SIZE + b] == Eval(f, [secret[b]] + rows[b], ShareX(i))
  {
    var values := ShareValues(f, secret, rows, i, |secret|);
    assert Share(f, secret, rows, i)[SHARE_HEADER_SIZE..] == values;
  }

  ghost predicate AreShares(f: Field<Octet>, secret: Bytes, rows: seq<Bytes>, picks: seq<nat>, data: seq<Bytes>)
    requires |rows| == |secret| && IsSelection(picks, 255)
  {
    |data| == |picks| && forall k | 0 <= k < |picks| :: data[k] == Share(f, secret, rows, picks[k])
  }

  /** Selected shares pass the format checks and carry samples of the secret's polynomials. */
  lemma SelectedShares(f: Field<Octet>, secret: Bytes, rows: seq<Bytes>, picks: seq<nat>, data: seq<Bytes>)
    requires 0 < |secret| <= MAX_SHARE_SIZE && |rows| == |secret|
    requires IsSelection(picks, 255) && |picks| > 0 && AreShares(f, secret, rows, picks, data)
    ensures WellFormed(data) && |data[0]| == SHARE_HEADER_SIZE + |secret|
    ensures NoDuplicates(XValues(data)) && forall k | 0 <= k < |data| :: XValues(data)[k] == ShareX(picks[k])
    ensures forall b | 0 <= b < |secret| :: Fits(f, [secret[b]] + rows[b], XValues(data), YValues(data, b))
  {
    forall k | 0 <= k < |data|
      ensures |data[k]| == SHARE_HEADER_SIZE + |secret| && data[k][..4] == MAGIC_BYTES && data[k][4] == ShareX(picks[k])
      ensures forall b | 0 <= b < |secret| :: data[k][SHARE_HEADER_SIZE + b] == Eval(f, [secret[b]] + rows[b], ShareX(picks[k]))
    {
      ShareParts(f, secret, rows, picks[k]);
    }
    forall k, m | 0 <= k < m < |data| ensures XValues(data)[k] != XValues(data)[m] {
      ShareXDistinct(picks[k], picks[m]);
    }
  }

  /** Any selection of at least `threshold` shares, in any order, interpolates to the secret. */
  lemma SelectionInterpolates(f: Field<Octet>, secret: Bytes, threshold: nat, rows: seq<Bytes>, picks: seq<nat>, data: seq<Bytes>)
    requires IsField(f) && 2 <= threshold && 0 < |secret| <= MAX_SHARE_SIZE && CoefficientsFor(secret, threshold, rows)
    requires IsSelection(picks, 255) && |picks| >= threshold && AreShares(f, secret, rows, picks, data)
    ensures WellFormed(data) && NoDuplicates(XValues(data)) && Interpolated(f, data) == secret
  {
    SelectedShares(f, secret, rows, picks, data);
    forall b | 0 <= b < |secret| ensures Interpolated(f, data)[b] == secret[b] {
      var c := [secret[b]] + rows[b];
      InterpolationRecovers(f, c, XValues(data), YValues(data, b), f.zero);
      EvalAtZero(f, c);
    }
  }

  /** The selected data shares followed by the tag, the last entry of a split. */
  function Selection(shares: seq<Bytes>, picks: seq<nat>): (r: seq<Bytes>)
    requires |shares| > 0 && forall k | 0 <= k < |picks| :: picks[k] < |shares|
    ensures |r| == |picks| + 1 && r[|picks|] == shares[|shares| - 1]
    ensures forall k | 0 <= k < |picks| :: r[k] == shares[picks[k]]
  {
    if picks == [] then [shares[|shares| - 1]] else [shares[picks[0]]] + Selection(shares, picks[1..])
  }

  lemma SelectionAccepted(f: Field<Octet>, secret: Bytes, threshold: nat, rows: seq<Bytes>, authKey: Bytes,
                          hmac: (Bytes, Bytes) -> Bytes, picks: seq<nat>, required: nat, shares: seq<Bytes>)
    requires IsField(f) && 2 <= threshold && 0 < |secret| <= MAX_SHARE_SIZE && CoefficientsFor(secret, threshold, rows)
    requires |authKey| == HMAC_BYTES && IsSelection(picks, 255) && threshold <= |picks| && required <= |picks|
    requires |shares| == |picks| + 1 && AreShares(f, secret, rows, picks, shares[..|picks|])
    requires shares[|picks|] == hmac(authKey, secret)
    ensures ReconstructAccepts(f, shares, authKey, required, hmac)
    ensures Interpolated(f, shares[..|shares| - 1]) == secret
  {
    SelectionInterpolates(f, secret, threshold, rows, picks, shares[..|picks|]);
  }

  /** Split, select, append the tag, reconstruct. */
  method SplitThenReconstruct(f: Field<Octet>, secret: Bytes, threshold: nat, shareCount: nat, authKey: Bytes, rows: seq<Bytes>,
                              hmac: (Bytes, Bytes) -> Bytes, picks: seq<nat>, required: nat) returns (r: Result<Bytes>)
    requires IsField(f) && f.add == Xor
    requires shareCount < 256 && SplitAccepts(secret, threshold, shareCount, authKey)
    requires CoefficientsFor(secret, threshold, rows)
    requires IsSelection(picks, shareCount) && threshold <= |picks| && required <= |picks|
    ensures r == Ok(secret)
  {
    var split := Split(f, secret, threshold, shareCount, authKey, rows, hmac);
    var selected := Selection(split.value, picks);
    SelectionAccepted(f, secret, threshold, rows, authKey, hmac, picks, required, selected);
    r := Reconstruct(f, selected, authKey, required, hmac);
  }

  /**
   Splitting and then reconstructing from any list of at least `threshold` distinct data
   shares, in any order and followed by the tag, returns exactly the secret.
   */
  method RoundTrip(secret: Bytes, threshold: nat, shareCount: nat, authKey: Bytes, rows: seq<Bytes>,
                   hmac: (Bytes, Bytes) -> Bytes, picks: seq<nat>, required: nat) returns (r: Result<Bytes>)
    requires shareCount < 256 && SplitAccepts(secret, threshold, shareCount, authKey)
    requires CoefficientsFor(secret, threshold, rows)
    requires IsSelection(picks, shareCount) && threshold <= |picks| && required <= |picks|
    ensures r == Ok(secret)
  {
    ByteFieldIsField();
    r := SplitThenReconstruct(BYTES, secret, threshold, shareCount, authKey, rows, hmac, picks, required);
  }

  // ----- Secrecy -----

  /** `rows` is a choice of coefficients under which `data` are the selected shares of `secret`. */
  ghost predicate Explains(f: Field<Octet>, secret: Bytes, threshold: nat, rows: seq<Bytes>, picks: seq<nat>, data: seq<Bytes>)
    requires IsSelection(picks, 255)
  {
    CoefficientsFor(secret, threshold, rows) && AreShares(f, secret, rows, picks, data)
  }

  /** Explaining shares byte by byte: the rows fit every column of observed values. */
  ghost predicate FitsColumns(f: Field<Octet>, secret: Bytes, rows: seq<Bytes>, xs: Bytes, columns: seq<Bytes>) {
    && |rows| == |columns| == |secret|
    && forall b | 0 <= b < |secret| :: |columns[b]| == |xs| && Fits(f, [secret[b]] + rows[b], xs, columns[b])
  }

  lemma FitsColumnsPrefix(f: Field<Octet>, secret: Bytes, rows: seq<Bytes>, xs: Bytes, columns: seq<Bytes>, n: nat)
    requires n < |secret| && CoefficientsFor(secret, |xs| + 1, rows) && FitsColumns(f, secret, rows, xs, columns)
    ensures CoefficientsFor(secret[..n], |xs| + 1, rows[..n]) && FitsColumns(f, secret[..n], rows[..n], xs, columns[..n])
    ensures |rows[n]| == |xs| && Fits(f, [secret[n]] + rows[n], xs, columns[n])
  {
  }

  lemma FitsColumnsExtended(f: Field<Octet>, secret: Bytes, rest: seq<Bytes>, row: Bytes, xs: Bytes, columns: seq<Bytes>, n: nat)
    requires n + 1 == |secret| == |columns| && |columns[n]| == |xs| == |row| && Fits(f, [secret[n]] + row, xs, columns[n])
    requires CoefficientsFor(secret[..n], |xs| + 1, rest) && FitsColumns(f, secret[..n], rest, xs, columns[..n])
    ensures CoefficientsFor(secret, |xs| + 1, rest + [row]) && FitsColumns(f, secret, rest + [row], xs, columns)
  {
    var rows := rest + [row];
    forall b | 0 <= b < |secret| ensures |columns[b]| == |xs| && Fits(f, [secret[b]] + rows[b], xs, columns[b]) {
      if b < n {
        assert rows[b] == rest[b] && secret[..n][b] == secret[b] && columns[..n][b] == columns[b];
      }
    }
  }

  lemma LastRow(rows: seq<Bytes>, rest: seq<Bytes>, row: Bytes)
    requires |rows| == |rest| + 1 && rows[..|rest|] == rest && rows[|rest|] == row
    ensures rows == rest + [row]
  {
  }

  /** For every candidate secret, exactly one choice of rows fits the observed columns. */
  lemma {:induction false} ExactlyOneFitPerByte(f: Field<Octet>, candidate: Bytes, xs: Bytes, columns: seq<Bytes>) returns (rows: seq<Bytes>)
    requires IsField(f) && NoDuplicates(xs) && f.zero !in xs
    requires |columns| == |candidate| && forall b | 0 <= b < |columns| :: |columns[b]| == |xs|
    ensures CoefficientsFor(candidate, |xs| + 1, rows) && FitsColumns(f, candidate, rows, xs, columns)
    ensures forall other | CoefficientsFor(candidate, |xs| + 1, other) && FitsColumns(f, candidate, other, xs, columns) ::
      other == rows
    decreases |candidate|
  {
    if candidate == [] {
      rows := [];
    } else {
      var n := |candidate| - 1;
      var rest := ExactlyOneFitPerByte(f, candidate[..n], xs, columns[..n]);
      var row := ExactlyOneFit(f, candidate[n], xs, columns[n]);
      rows := rest + [row];
      FitsColumnsExtended(f, candidate, rest, row, xs, columns, n);
      forall other | CoefficientsFor(candidate, |xs| + 1, other) && FitsColumns(f, candidate, other, xs, columns)
        ensures other == rows
      {
        FitsColumnsPrefix(f, candidate, other, xs, columns, n);
        LastRow(other, rest, row);
      }
    }
  }

  /** Coefficients explain the shares exactly when they fit every column of values. */
  lemma ExplainsIffFits(f: Field<Octet>, secret: Bytes, rows: seq<Bytes>, picks: seq<nat>, data: seq<Bytes>, xs: Bytes, columns: seq<Bytes>)
    requires 0 < |secret| <= MAX_SHARE_SIZE && |rows| == |secret| && IsSelection(picks, 255) && |picks| > 0
    requires |data| == |picks| && (forall k | 0 <= k < |data| :: |data[k]| == SHARE_HEADER_SIZE + |secret|)
    requires forall k | 0 <= k < |data| :: data[k][..SHARE_HEADER_SIZE] == MAGIC_BYTES + [ShareX(picks[k])]
    requires |xs| == |data| && forall k | 0 <= k < |data| :: xs[k] == ShareX(picks[k])
    requires |columns| == |secret| && forall b | 0 <= b < |secret| :: columns[b] == YValues(data, b)
    ensures AreShares(f, secret, rows, picks, data) <==> FitsColumns(f, secret, rows, xs, columns)
  {
    if FitsColumns(f, secret, rows, xs, columns) {
      forall k | 0 <= k < |data| ensures data[k] == Share(f, secret, rows, picks[k]) {
        var values := ShareValues(f, secret, rows, picks[k], |secret|);
        forall b | 0 <= b < |secret| ensures data[k][SHARE_HEADER_SIZE + b] == values[b] {
          assert columns[b][k] == Eval(f, [secret[b]] + rows[b], xs[k]);
        }
        assert data[k] == data[k][..SHARE_HEADER_SIZE] + data[k][SHARE_HEADER_SIZE..];
        assert data[k][SHARE_HEADER_SIZE..] == values;
      }
    }
    if AreShares(f, secret, rows, picks, data) {
      forall b, k | 0 <= b < |secret| && 0 <= k < |xs| ensures Eval(f, [secret[b]] + rows[b], xs[k]) == columns[b][k] {
        ShareParts(f, secret, rows, picks[k]);
      }
    }
  }

  /**
   Below the threshold nothing is learnt: whatever `threshold - 1` shares of a split are seen,
   every candidate secret of the same length is explained by exactly one choice of coefficients.
   */
  lemma PerfectSecrecy(f: Field<Octet>, secret: Bytes, threshold: nat, rows: seq<Bytes>, picks: seq<nat>, data: seq<Bytes>, candidate: Bytes)
    returns (explanation: seq<Bytes>)
    requires IsField(f) && f.zero == 0 && 2 <= threshold && 0 < |secret| <= MAX_SHARE_SIZE
    requires IsSelection(picks, 255) && |picks| == threshold - 1
    requires Explains(f, secret, threshold, rows, picks, data) && |candidate| == |secret|
    ensures Explains(f, candidate, threshold, explanation, picks, data)
    ensures forall other | Explains(f, candidate, threshold, other, picks, data) :: other == explanation
  {
    SelectedShares(f, secret, rows, picks, data);
    var xs := XValues(data);
    var columns := seq(|secret|, b requires 0 <= b < |secret| && WellFormed(data) && |data[0]| == SHARE_HEADER_SIZE + |secret| => YValues(data, b));
    forall k | 0 <= k < |data|
      ensures xs[k] != 0 && data[k][..SHARE_HEADER_SIZE] == MAGIC_BYTES + [ShareX(picks[k])]
    {
      ShareXDistinct(picks[k], picks[k]);
      ShareParts(f, secret, rows, picks[k]);
    }
    explanation := ExactlyOneFitPerByte(f, candidate, xs, columns);
    ExplainsIffFits(f, candidate, explanation, picks, data, xs, columns);
    forall other | Explains(f, candidate, threshold, other, picks, data)
      ensures other == explanation
    {
      ExplainsIffFits(f, candidate, other, picks, data, xs, columns);
    }
  }

  /** The same over the field the shares are computed in. */
  lemma ByteSharesArePerfectlySecret(secret: Bytes, threshold: nat, rows: seq<Bytes>, picks: seq<nat>, data: seq<Bytes>, candidate: Bytes)
    returns (explanation: seq<Bytes>)
    requires 2 <= threshold && 0 < |secret| <= MAX_SHARE_SIZE
    requires IsSelection(picks, 255) && |picks| == threshold - 1
    requires Explains(BYTES, secret, threshold, rows, picks, data) && |candidate| == |secret|
    ensures Explains(BYTES, candidate, threshold, explanation, picks, data)
    ensures forall other | Explains(BYTES, candidate, threshold, other, picks, data) :: other == explanation
  {
    ByteFieldIsField();
    explanation := PerfectSecrecy(BYTES, secret, threshold, rows, picks, data, candidate);
  }
}

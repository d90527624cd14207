/**
 The field GF(2^8) with modulus 0x11B (section 4.2 of FIPS 197), as the table-driven,
 branch-free arithmetic of the secret sharing code computes it.

 `Exp` and `Log` say what the two tables hold, `BuildExpTable` and `BuildLogTable` are the loops
 that fill them, and `Mul` and `Inv` are the masked table look-ups.  `MulIsFieldMultiplication`
 proves `Mul` to be the shift-and-reduce multiplication of FIPS 197, and `ByteFieldIsField` that
 bytes form a field under it.
 */
module Gf256 {
  import Arithmetic
  import opened Fields
  import opened Generators
  import opened Octets


  const GF256_MODULUS: bv16 := 0x11B
  const GF256_OVERFLOW: bv16 := 0x100

  function Xor(a: Octet, b: Octet): Octet { a ^ b }

  /** Multiplication by x (the byte 2), section 4.2.1 of FIPS 197. */
  function Xtime(b: Octet): Octet { (b << 1) ^ ((b >> 7) * 0x1B) }

  /** Multiplication by the generator 3. */
  function Times3(b: Octet): Octet { Xor(Xtime(b), b) }

  /** The generator 3 to the power `i`. */
  function Exp(i: nat): Octet { Iterate(Times3, i, 1) }

  /** The least exponent below 255 from `i` on that gives `b`, or 0 if there is none. */
  function LogFrom(b: Octet, i: nat): (k: nat)
    ensures k < 255
    decreases 255 - i
  {
    if i >= 255 then 0 else if Exp(i) == b then i else LogFrom(b, i + 1)
  }

  /** The logarithm of `b`; zero, which has none, is given 0. */
  function Log(b: Octet): nat { LogFrom(b, 0) }

  // ----- The exponent table -----

  /** The word-level step that the table loop performs: shift, add, reduce on overflow. */
  function NextPower(val: bv16): bv16 {
    var shifted := (val << 1) ^ val;
    if shifted & GF256_OVERFLOW != 0 then shifted ^ GF256_MODULUS else shifted
  }

  lemma NextPowerIsTimes3(b: Octet)
    ensures NextPower(b as bv16) == Times3(b) as bv16
  {
  }

  lemma LowByte(b: Octet)
    ensures ((b as bv16) & 0xFF) as bv8 == b
  {
  }

  method BuildExpTable() returns (table: array<Octet>)
    ensures table.Length == 512
    ensures forall k | 0 <= k < 512 :: table[k] == Exp(k)
  {
    table := new Octet[512](_ => 0);
    var val: bv16 := 1;
    var i := 0;
    while i < 512
      invariant 0 <= i <= 512
      invariant val == Exp(i) as bv16
      invariant forall k | 0 <= k < i :: table[k] == Exp(k)
    {
      LowByte(Exp(i));
      table[i] := (val & 0xFF) as bv8;
      NextPowerIsTimes3(Exp(i));
      val := NextPower(val);
      i := i + 1;
    }
  }

  // ----- The additive group and the generator -----

  const GENERATOR: Generator<Octet> := Generator(0, 1, Xor, Times3, 255, Log)

  lemma XorAssociative(a: Octet, b: Octet, c: Octet)
    ensures (a ^ b) ^ c == a ^ (b ^ c)
  {
  }

  lemma XorIsGroup()
    ensures IsXorGroup<Octet>(0, Xor)
  {
    forall a: Octet, b: Octet, c: Octet ensures Xor(Xor(a, b), c) == Xor(a, Xor(b, c)) {
      XorAssociative(a, b, c);
    }
  }

  lemma XtimeLinear(a: Octet, b: Octet)
    ensures Xtime(a ^ b) == Xtime(a) ^ Xtime(b)
  {
  }

  lemma Times3IsLinear()
    ensures IsLinear(Xor, Times3)
    ensures forall x: Octet :: Xtime(Times3(x)) == Times3(Xtime(x))
  {
    XorIsGroup();
    forall a: Octet, b: Octet ensures Xtime(Xor(a, b)) == Xor(Xtime(a), Xtime(b)) {
      XtimeLinear(a, b);
    }
    LinearPlusIdentity(0, Xor, Xtime, Times3);
  }

  lemma Times3Cancel(a: Octet, b: Octet)
    requires Times3(a) == Times3(b)
    ensures a == b
  {
  }

  lemma Times3IsInjective()
    ensures IsInjective(Times3)
  {
    forall a: Octet, b: Octet | Times3(a) == Times3(b) ensures a == b {
      Times3Cancel(a, b);
    }
  }

  // ----- The generator has order 255 -----

  lemma ExpPlus17(n: nat)
    ensures Exp(n + 17) == Steps17(Times3, Exp(n))
  {
    IterateSteps17(Times3, n, 1);
  }

  lemma Steps17ValuesA()
    ensures Steps17(Times3, 0x01) == 0xE1
    ensures Steps17(Times3, 0xE1) == 0x5C
    ensures Steps17(Times3, 0x5C) == 0x0C
  {
  }

  lemma Steps17ValuesB()
    ensures Steps17(Times3, 0x0C) == 0xE0
    ensures Steps17(Times3, 0xE0) == 0xBD
    ensures Steps17(Times3, 0xBD) == 0x50
  {
  }

  lemma Steps17ValuesC()
    ensures Steps17(Times3, 0x50) == 0xEC
    ensures Steps17(Times3, 0xEC) == 0x5D
    ensures Steps17(Times3, 0x5D) == 0xED
  {
  }

  lemma Steps17ValuesD()
    ensures Steps17(Times3, 0xED) == 0xBC
    ensures Steps17(Times3, 0xBC) == 0xB1
    ensures Steps17(Times3, 0xB1) == 0xB0
  {
  }

  lemma Steps17ValuesE()
    ensures Steps17(Times3, 0xB0) == 0x51
    ensures Steps17(Times3, 0x51) == 0x0D
    ensures Steps17(Times3, 0x0D) == 0x01
  {
  }

  lemma MultiplesOf17()
    ensures Exp(51) == 0x0C && Exp(85) == 0xBD && Exp(255) == 1
  {
    Steps17ValuesA();
    Steps17ValuesB();
    Steps17ValuesC();
    Steps17ValuesD();
    Steps17ValuesE();
    ExpPlus17(0);
    ExpPlus17(17);
    ExpPlus17(34);
    ExpPlus17(51);
    ExpPlus17(68);
    ExpPlus17(85);
    ExpPlus17(102);
    ExpPlus17(119);
    ExpPlus17(136);
    ExpPlus17(153);
    ExpPlus17(170);
    ExpPlus17(187);
    ExpPlus17(204);
    ExpPlus17(221);
    ExpPlus17(238);
  }

  lemma Exp15()
    ensures Exp(15) == 0x35
  {
    Iterate5(Times3, 1);
    IterateAdd(Times3, 5, 5, 1);
    Iterate5(Times3, Exp(5));
    IterateAdd(Times3, 5, 10, 1);
    Iterate5(Times3, Exp(10));
  }

  /** A proper divisor of 255 = 3 * 5 * 17 divides 15, 51 or 85. */
  lemma ProperDivisor(d: nat, q: nat) returns (k: nat)
    requires q * d == 255 && d < 255
    ensures k * d == 15 || k * d == 51 || k * d == 85
  {
    if d <= 15 {
      assert d == 1 || d == 3 || d == 5 || d == 15 by { SmallDivisor(d, q); }
      k := 15 / d;
    } else {
      assert q <= 15 by { if q >= 16 { Arithmetic.ProductGap(d, 15, q); } }
      assert q == 1 || q == 3 || q == 5 || q == 15 by { SmallDivisor(q, d); }
      k := if q == 15 then 3 else 1;
    }
  }

  lemma SmallDivisor(d: nat, q: nat)
    requires q * d == 255 && d <= 15
    ensures d == 1 || d == 3 || d == 5 || d == 15
  {
    if d == 2 || d == 4 || d == 6 || d == 7 || d == 8 || d == 9 || d == 10 || d == 11 || d == 12 || d == 13 || d == 14 {
    }
  }

  lemma DivisorBound(n: nat, p: nat, d: nat)
    requires 0 < n == p * d
    ensures d <= n
  {
    if p > 1 {
      Arithmetic.ProductGap(d, 1, p);
    }
  }

  lemma ExpNotOne(n: nat)
    requires 0 < n < 255
    ensures Exp(n) != 1
  {
    if Exp(n) == 1 {
      Times3IsInjective();
      MultiplesOf17();
      Exp15();
      var d, p, q := CommonDivisorPower(GENERATOR, n, 255);
      DivisorBound(n, p, d);
      var k := ProperDivisor(d, q);
      PowerMultiple(GENERATOR, d, k);
    }
  }

  lemma ExpDistinct(i: nat, j: nat)
    requires i < j < 255
    ensures Exp(i) != Exp(j)
  {
    if Exp(i) == Exp(j) {
      Times3IsInjective();
      PowerDifference(GENERATOR, i, j);
      ExpNotOne(j - i);
    }
  }

  lemma ExpNonzero(i: nat)
    ensures Exp(i) != 0
  {
    if Exp(i) == 0 {
      Times3IsInjective();
      IterateFixed(Times3, i, 0);
      IterateInjective(Times3, i, 0, 1);
    }
  }

  lemma ByteAsInt(b: Octet, c: Octet)
    ensures 0 <= b as int < 256
    ensures b as int == c as int ==> b == c
  {
    assert (b as int) as bv8 == b;
    assert (c as int) as bv8 == c;
  }

  /** A byte used as an index. */
  function Index(b: Octet): (k: nat)
    ensures k < 256
  {
    ByteAsInt(b, b);
    b as int
  }

  lemma {:induction false} IntAsByte(n: nat)
    requires n < 256
    ensures (n as bv8) as int == n
  {
    if n != 0 {
      IntAsByte(n - 1);
      var b := (n - 1) as bv8;
      assert b != 255;
      assert (b + 1) as int == b as int + 1;
      assert n as bv8 == b + 1;
    }
  }

  /** Every nonzero byte is a power of the generator: 255 distinct nonzero bytes are all of them. */
  lemma ExpOnto(b: Octet) returns (k: nat)
    requires b != 0
    ensures k < 255 && Exp(k) == b
  {
    var s := seq(255, (i: nat) => Exp(i) as int);
    forall i, j | 0 <= i < j < |s|
      ensures s[i] != s[j]
    {
      ExpDistinct(i, j);
      ByteAsInt(Exp(i), Exp(j));
    }
    forall i | 0 <= i < |s|
      ensures 1 <= s[i] < 256
    {
      ExpNonzero(i);
      ByteAsInt(Exp(i), 0);
    }
    ByteAsInt(b, 0);
    Arithmetic.Pigeonhole(s, 1, 256, b as int);
    k :| 0 <= k < 255 && s[k] == b as int;
    ByteAsInt(b, Exp(k));
  }

  lemma {:induction false} LogFromFinds(b: Octet, i: nat, k: nat)
    requires i <= k < 255 && Exp(k) == b
    ensures LogFrom(b, i) == k
    decreases k - i
  {
    if i < k {
      ExpDistinct(i, k);
      LogFromFinds(b, i + 1, k);
    }
  }

  lemma LogFound(b: Octet)
    requires b != 0
    ensures Log(b) < 255 && Exp(Log(b)) == b
  {
    var k := ExpOnto(b);
    LogFromFinds(b, 0, k);
  }

  lemma GeneratorCovers()
    ensures Covers(GENERATOR)
  {
    forall x: Octet
      ensures x != 0 ==> Log(x) < 255 && Exp(Log(x)) == x
    {
      if x != 0 { LogFound(x); }
    }
  }

  lemma GeneratorDistinct()
    ensures DistinctPowers(GENERATOR)
  {
    forall i: nat, j: nat | i < 255 && j < 255
      ensures Power(GENERATOR, i) == Power(GENERATOR, j) ==> i == j
    {
      if i < j { ExpDistinct(i, j); } else if j < i { ExpDistinct(j, i); }
    }
  }

  lemma GeneratorIsPrimitive()
    ensures Primitive(GENERATOR)
  {
    XorIsGroup();
    Times3IsLinear();
    Times3IsInjective();
    MultiplesOf17();
    GeneratorCovers();
    GeneratorDistinct();
  }

  // ----- The logarithm table -----

  lemma {:induction false} LogFromAbsent(i: nat)
    ensures LogFrom(0, i) == 0
    decreases 255 - i
  {
    if i < 255 {
      ExpNonzero(i);
      LogFromAbsent(i + 1);
    }
  }

  /** The loop that inverts the exponent table: entry `b` ends up holding the logarithm of `b`. */
  method BuildLogTable(exp: array<Octet>) returns (table: array<nat>)
    requires exp.Length == 512 && forall k | 0 <= k < 512 :: exp[k] == Exp(k)
    ensures table.Length == 256
    ensures forall b: Octet :: table[b as int] == Log(b)
  {
    table := new nat[256](_ => 0);
    var i := 0;
    while i < 255
      invariant 0 <= i <= 255
      invariant forall k | 0 <= k < i :: table[Exp(k) as int] == k
      invariant table[0] == 0
    {
      ByteAsInt(exp[i], 0);
      ExpNonzero(i);
      forall k | 0 <= k < i
        ensures Exp(k) as int != Exp(i) as int
      {
        ExpDistinct(k, i);
        ByteAsInt(Exp(k), Exp(i));
      }
      table[exp[i] as int] := i;
      i := i + 1;
    }
    forall b: Octet
      ensures table[b as int] == Log(b)
    {
      if b == 0 { LogFromAbsent(0); } else { LogFound(b); }
    }
  }

  // ----- Branch-free multiplication and inversion -----

  /** The contents of the two tables after the loops above. */
  function ExpTable(): (table: seq<Octet>)
    ensures |table| == 512 && forall k | 0 <= k < 512 :: table[k] == Exp(k)
  {
    seq(512, (i: nat) => Exp(i))
  }

  function LogTable(): (table: seq<nat>)
    ensures |table| == 256 && forall k | 0 <= k < 256 :: table[k] == Log(k as bv8)
  {
    seq(256, (b: nat) requires b < 256 => Log(b as bv8))
  }

  /** All ones when `a` is zero, all zeros otherwise (in the low byte). */
  function ZeroMask(a: Octet): bv16 {
    ((a as bv16) - 1) >> 8
  }

  function KeepUnless(result: Octet, mask: bv16): Octet {
    result & ((!mask & 0xFF) as bv8)
  }

  lemma MaskSelects(result: Octet, a: Octet)
    ensures KeepUnless(result, ZeroMask(a)) == if a == 0 then 0 else result
  {
  }

  lemma MasksSelect(result: Octet, a: Octet, b: Octet)
    ensures KeepUnless(result, ZeroMask(a) | ZeroMask(b)) == if a == 0 || b == 0 then 0 else result
  {
  }

  ghost predicate AreTablesOf(g: Generator<Octet>, exp: seq<Octet>, log: seq<nat>) {
    && |exp| == 512 && (forall k | 0 <= k < 512 :: exp[k] == Power(g, k))
    && |log| == 256 && (forall b: Octet :: 0 <= b as int < 256 && log[b as int] == g.log(b) < 255)
    && g.zero == 0 && g.order == 255
  }

  /** `gf_mul` and `gf_inv` with the tables as parameters. */
  function MulWith(exp: seq<Octet>, log: seq<nat>, a: Octet, b: Octet): Octet
    requires |exp| == 512 && |log| == 256 && forall k | 0 <= k < 256 :: log[k] < 255
  {
    ByteAsInt(a, b);
    ByteAsInt(b, a);
    KeepUnless(exp[log[a as int] + log[b as int]], ZeroMask(a) | ZeroMask(b))
  }

  function InvWith(exp: seq<Octet>, log: seq<nat>, a: Octet): Octet
    requires |exp| == 512 && |log| == 256 && forall k | 0 <= k < 256 :: log[k] < 255
  {
    ByteAsInt(a, a);
    KeepUnless(exp[255 - log[a as int]], ZeroMask(a))
  }

  function Mul(a: Octet, b: Octet): Octet { MulWith(ExpTable(), LogTable(), a, b) }

  function Inv(a: Octet): Octet { InvWith(ExpTable(), LogTable(), a) }

  /** The masked look-ups are addition and negation of logarithms, with zero set apart. */
  lemma MulWithIsTimes(g: Generator<Octet>, exp: seq<Octet>, log: seq<nat>, a: Octet, b: Octet)
    requires AreTablesOf(g, exp, log) && forall k | 0 <= k < 256 :: log[k] < 255
    ensures MulWith(exp, log, a, b) == Times(g, a, b)
    ensures InvWith(exp, log, a) == Inverse(g, a)
  {
    ByteAsInt(a, b);
    ByteAsInt(b, a);
    MasksSelect(exp[log[a as int] + log[b as int]], a, b);
    MaskSelects(exp[255 - log[a as int]], a);
  }

  lemma LogTableEntry(b: Octet)
    ensures 0 <= b as int < 256 && LogTable()[b as int] == Log(b)
  {
    ByteAsInt(b, b);
    assert (b as int) as bv8 == b;
  }

  lemma TablesFit()
    ensures AreTablesOf(GENERATOR, ExpTable(), LogTable())
  {
    forall b: Octet ensures 0 <= b as int < 256 && LogTable()[b as int] == Log(b) {
      LogTableEntry(b);
    }
  }

  lemma MulIsTimes(a: Octet, b: Octet)
    ensures Mul(a, b) == Times(GENERATOR, a, b) && Inv(a) == Inverse(GENERATOR, a)
  {
    TablesFit();
    MulWithIsTimes(GENERATOR, ExpTable(), LogTable(), a, b);
  }

  const BYTES: Field<Octet> := Field(0, 1, Xor, Mul, Inv)

  lemma BytesAgree()
    ensures Agree(GENERATOR, BYTES)
  {
    forall a: Octet, b: Octet ensures Mul(a, b) == Times(GENERATOR, a, b) && Inv(a) == Inverse(GENERATOR, a) {
      MulIsTimes(a, b);
    }
  }

  /** Bytes under exclusive or and the table multiplication are a field. */
  lemma ByteFieldIsField()
    ensures IsField(BYTES)
  {
    GeneratorIsPrimitive();
    BytesAgree();
    GeneratedField(GENERATOR, BYTES);
  }

  // ----- The reference: multiplication as FIPS 197 defines it -----

  const BIT: seq<Octet> := [1, 2, 4, 8, 16, 32, 64, 128]

  /** The bits of a byte, lowest first. */
  function Bits(b: Octet): seq<bool> {
    seq(8, (k: nat) requires k < 8 => b & BIT[k] != 0)
  }

  /** Section 4.2 of FIPS 197: the sum of `a` times x^k over the bits `k` set in `b`. */
  function FieldMultiply(a: Octet, b: Octet): Octet {
    ShiftAndAdd(0, Xor, Xtime, a, Bits(b))
  }

  const BITS_FROM: seq<Octet> := [255, 254, 252, 248, 240, 224, 192, 128, 0]

  lemma MaskConstants(k: nat)
    requires k < 8
    ensures BIT[k] & (BIT[k] - 1) == 0 && BITS_FROM[k + 1] & BIT[k] == 0
    ensures BITS_FROM[k] == BITS_FROM[k + 1] | BIT[k]
  {
    assert k == 0 || k == 1 || k == 2 || k == 3 || k == 4 || k == 5 || k == 6 || k == 7;
  }

  lemma AddLowestBit(b: Octet, bit: Octet, high: Octet)
    requires bit & (bit - 1) == 0 && high & bit == 0
    ensures b & (high | bit) == (if b & bit != 0 then bit else 0) ^ (b & high)
  {
  }

  /** `b` without its lowest `k` bits, for each `k`. */
  function HighBits(b: Octet): seq<Octet> {
    seq(9, (k: nat) requires k < 9 => b & BITS_FROM[k])
  }

  ghost predicate SumsOf(bits: seq<bool>, sums: seq<Octet>) {
    && |bits| == 8 && |sums| == 9 && sums[8] == 0
    && forall k | 0 <= k < 8 :: sums[k] == Xor(if bits[k] then BIT[k] else 0, sums[k + 1])
  }

  lemma HighBitsAreSums(b: Octet)
    ensures SumsOf(Bits(b), HighBits(b))
  {
    forall k | 0 <= k < 8
      ensures HighBits(b)[k] == Xor(if Bits(b)[k] then BIT[k] else 0, HighBits(b)[k + 1])
    {
      MaskConstants(k);
      AddLowestBit(b, BIT[k], BITS_FROM[k + 1]);
    }
  }

  lemma MultiplyOneFrom(bits: seq<bool>, sums: seq<Octet>)
    requires SumsOf(bits, sums)
    ensures ShiftAndAdd(0, Xor, Xtime, 1, bits) == sums[0]
  {
    ShiftAndAddSums(0, Xor, Xtime, BIT, sums, bits);
  }

  lemma MultiplyOne(b: Octet)
    ensures FieldMultiply(1, b) == b
  {
    HighBitsAreSums(b);
    MultiplyOneFrom(Bits(b), HighBits(b));
    assert b & 255 == b;
  }

  /** The branch-free table multiplication is the multiplication of FIPS 197, for all bytes. */
  lemma MulIsFieldMultiplication(a: Octet, b: Octet)
    ensures Mul(a, b) == FieldMultiply(a, b)
  {
    MulIsTimes(a, b);
    GeneratorIsPrimitive();
    Times3IsLinear();
    MultiplyOne(b);
    ShiftAndAddZero(0, Xor, Xtime, Bits(b));
    ShiftAndAddIsTimes(GENERATOR, Xtime, a, b, Bits(b));
  }
}

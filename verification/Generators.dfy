/**
 A finite field presented by a generator: an addition, and one linear map ("multiply by the
 generator") whose iterates run through all nonzero elements.  Multiplication is then the
 addition of logarithms, and `GeneratedField` proves all the field laws from the linearity of
 that one map.
 */
module Generators {
  import opened Arithmetic
  import opened Fields

  datatype Generator<!T> = Generator(zero: T, one: T, add: (T, T) -> T, step: T -> T, order: nat, log: T -> nat)

  /** `step` applied `n` times. */
  function Iterate<T(!new)>(step: T -> T, n: nat, x: T): T {
    if n == 0 then x else step(Iterate(step, n - 1, x))
  }

  ghost predicate IsLinear<T(!new)>(add: (T, T) -> T, step: T -> T) {
    forall a, b {:trigger At2(a, b)} :: step(add(a, b)) == add(step(a), step(b))
  }

  ghost predicate IsInjective<T(!new)>(step: T -> T) {
    forall a, b {:trigger At2(a, b)} :: step(a) == step(b) ==> a == b
  }

  function Power<T(!new)>(g: Generator<T>, n: nat): T {
    Iterate(g.step, n, g.one)
  }

  /** `log` finds, for every nonzero element, which of the first `order` powers it is. */
  ghost predicate Covers<T(!new)>(g: Generator<T>) {
    forall x :: x != g.zero ==> g.log(x) < g.order && Power(g, g.log(x)) == x
  }

  ghost predicate DistinctPowers<T(!new)>(g: Generator<T>) {
    forall i: nat, j: nat {:trigger At2(i, j)} ::
      i < g.order && j < g.order && Power(g, i) == Power(g, j) ==> i == j
  }

  /** Every nonzero element is exactly one of the first `order` powers. */
  ghost predicate Primitive<T(!new)>(g: Generator<T>) {
    && IsXorGroup(g.zero, g.add)
    && IsLinear(g.add, g.step)
    && IsInjective(g.step)
    && g.one != g.zero
    && g.order > 0
    && Power(g, g.order) == g.one
    && Covers(g)
    && DistinctPowers(g)
  }

  // ----- Iterating a linear map -----

  lemma {:induction false} IterateAdd<T(!new)>(step: T -> T, m: nat, n: nat, x: T)
    ensures Iterate(step, m + n, x) == Iterate(step, m, Iterate(step, n, x))
  {
    if m > 0 {
      IterateAdd(step, m - 1, n, x);
    }
  }

  lemma {:induction false} IterateLinear<T(!new)>(add: (T, T) -> T, step: T -> T, n: nat, a: T, b: T)
    requires IsLinear(add, step)
    ensures Iterate(step, n, add(a, b)) == add(Iterate(step, n, a), Iterate(step, n, b))
  {
    if n > 0 {
      IterateLinear(add, step, n - 1, a, b);
      assert At2(Iterate(step, n - 1, a), Iterate(step, n - 1, b));
    }
  }

  lemma {:induction false} IterateInjective<T(!new)>(step: T -> T, n: nat, a: T, b: T)
    requires IsInjective(step) && Iterate(step, n, a) == Iterate(step, n, b)
    ensures a == b
  {
    if n > 0 {
      assert At2(Iterate(step, n - 1, a), Iterate(step, n - 1, b));
      IterateInjective(step, n - 1, a, b);
    }
  }

  lemma {:induction false} IterateFixed<T(!new)>(step: T -> T, n: nat, x: T)
    requires step(x) == x
    ensures Iterate(step, n, x) == x
  {
    if n > 0 {
      IterateFixed(step, n - 1, x);
    }
  }

  lemma StepZero<T(!new)>(zero: T, add: (T, T) -> T, step: T -> T)
    requires IsXorGroup(zero, add) && IsLinear(add, step)
    ensures step(zero) == zero
  {
    AddUnits(zero, add, zero);
    assert At2(zero, zero);
    AddUnits(zero, add, step(zero));
  }

  /** Adding the identity to a linear map leaves it linear, and the two maps commute. */
  lemma LinearPlusIdentity<T(!new)>(zero: T, add: (T, T) -> T, double: T -> T, step: T -> T)
    requires IsXorGroup(zero, add) && IsLinear(add, double)
    requires forall x :: step(x) == add(double(x), x)
    ensures IsLinear(add, step)
    ensures forall x :: double(step(x)) == step(double(x))
  {
    forall a, b ensures step(add(a, b)) == add(step(a), step(b)) {
      assert At2(a, b);
      AddInterchange(zero, add, double(a), double(b), a, b);
    }
    forall x ensures double(step(x)) == step(double(x)) {
      assert At2(double(x), x);
    }
  }

  // ----- Shift-and-add multiplication -----

  /** The sum of `a` doubled `k` times over the set bits `k`. */
  function ShiftAndAdd<T(!new)>(zero: T, add: (T, T) -> T, double: T -> T, a: T, bits: seq<bool>): T
    decreases bits
  {
    if bits == [] then zero
    else add(if bits[0] then a else zero, ShiftAndAdd(zero, add, double, double(a), bits[1..]))
  }

  lemma {:induction false} ShiftAndAddStep<T(!new)>(zero: T, add: (T, T) -> T, double: T -> T, step: T -> T, a: T, bits: seq<bool>)
    requires IsXorGroup(zero, add) && IsLinear(add, step)
    requires forall x :: double(step(x)) == step(double(x))
    ensures ShiftAndAdd(zero, add, double, step(a), bits) == step(ShiftAndAdd(zero, add, double, a, bits))
    decreases bits
  {
    StepZero(zero, add, step);
    if bits != [] {
      ShiftAndAddStep(zero, add, double, step, double(a), bits[1..]);
      assert At2(if bits[0] then a else zero, ShiftAndAdd(zero, add, double, double(a), bits[1..]));
    }
  }

  lemma {:induction false} ShiftAndAddIterate<T(!new)>(zero: T, add: (T, T) -> T, double: T -> T, step: T -> T, n: nat, a: T, bits: seq<bool>)
    requires IsXorGroup(zero, add) && IsLinear(add, step)
    requires forall x :: double(step(x)) == step(double(x))
    ensures ShiftAndAdd(zero, add, double, Iterate(step, n, a), bits) == Iterate(step, n, ShiftAndAdd(zero, add, double, a, bits))
  {
    if n > 0 {
      ShiftAndAddIterate(zero, add, double, step, n - 1, a, bits);
      ShiftAndAddStep(zero, add, double, step, Iterate(step, n - 1, a), bits);
    }
  }

  lemma {:induction false} ShiftAndAddZero<T(!new)>(zero: T, add: (T, T) -> T, double: T -> T, bits: seq<bool>)
    requires IsXorGroup(zero, add) && double(zero) == zero
    ensures ShiftAndAdd(zero, add, double, zero, bits) == zero
    decreases bits
  {
    AddUnits(zero, add, zero);
    if bits != [] {
      ShiftAndAddZero(zero, add, double, bits[1..]);
    }
  }

  /** A sum read off from the top bit down: `sums[k]` is the total of the bits from `k` on. */
  lemma {:induction false} ShiftAndAddSums<T(!new)>(zero: T, add: (T, T) -> T, double: T -> T, doubled: seq<T>, sums: seq<T>, bits: seq<bool>)
    requires |sums| == |bits| + 1 && |doubled| == |bits| && sums[|bits|] == zero
    requires forall k | 0 <= k < |bits| - 1 :: doubled[k + 1] == double(doubled[k])
    requires forall k | 0 <= k < |bits| :: sums[k] == add(if bits[k] then doubled[k] else zero, sums[k + 1])
    ensures bits != [] ==> ShiftAndAdd(zero, add, double, doubled[0], bits) == sums[0]
    decreases bits
  {
    if |bits| > 1 {
      ShiftAndAddSums(zero, add, double, doubled[1..], sums[1..], bits[1..]);
    }
  }

  // ----- Powers and logarithms -----

  lemma PowerPeriod<T(!new)>(g: Generator<T>, n: nat)
    requires Primitive(g)
    ensures Power(g, n + g.order) == Power(g, n)
  {
    IterateAdd(g.step, n, g.order, g.one);
  }

  lemma {:induction false} PowerPeriodic<T(!new)>(g: Generator<T>, n: nat)
    requires Primitive(g)
    ensures Power(g, n) == Power(g, n % g.order)
  {
    if n >= g.order {
      PowerPeriod(g, n - g.order);
      PowerPeriodic(g, n - g.order);
      SubtractModulus(n, g.order);
    } else {
      ModulusUnique(n, g.order, 0, n);
    }
  }

  lemma PowerNonzero<T(!new)>(g: Generator<T>, n: nat)
    requires Primitive(g)
    ensures Power(g, n) != g.zero
  {
    if Power(g, n) == g.zero {
      StepZero(g.zero, g.add, g.step);
      IterateFixed(g.step, n, g.zero);
      IterateInjective(g.step, n, g.zero, g.one);
    }
  }

  lemma LogUnique<T(!new)>(g: Generator<T>, x: T, k: nat)
    requires Primitive(g) && k < g.order && Power(g, k) == x
    ensures g.log(x) == k
  {
    PowerNonzero(g, k);
    assert At2(g.log(x), k);
  }

  lemma LogOfPower<T(!new)>(g: Generator<T>, n: nat)
    requires Primitive(g)
    ensures g.log(Power(g, n)) == n % g.order
  {
    PowerPeriodic(g, n);
    LogUnique(g, Power(g, n), n % g.order);
  }

  // ----- Multiplication by adding logarithms -----

  function Times<T(!new, ==)>(g: Generator<T>, a: T, b: T): T
  {
    if a == g.zero || b == g.zero then g.zero else Power(g, g.log(a) + g.log(b))
  }

  function Inverse<T(!new, ==)>(g: Generator<T>, a: T): T {
    if a == g.zero || g.order < g.log(a) then g.zero else Power(g, g.order - g.log(a))
  }

  /** Multiplying by a power of the generator is iterating the step, whatever the other operand. */
  lemma TimesIsIterate<T(!new)>(g: Generator<T>, a: T, b: T)
    requires Primitive(g) && a != g.zero
    ensures Times(g, a, b) == Iterate(g.step, g.log(a), b)
  {
    if b == g.zero {
      StepZero(g.zero, g.add, g.step);
      IterateFixed(g.step, g.log(a), g.zero);
    } else {
      IterateAdd(g.step, g.log(a), g.log(b), g.one);
    }
  }

  lemma TimesDistributes<T(!new)>(g: Generator<T>, a: T, b: T, c: T)
    requires Primitive(g)
    ensures Times(g, a, g.add(b, c)) == g.add(Times(g, a, b), Times(g, a, c))
  {
    if a == g.zero {
      AddUnits(g.zero, g.add, g.zero);
    } else {
      TimesIsIterate(g, a, b);
      TimesIsIterate(g, a, c);
      TimesIsIterate(g, a, g.add(b, c));
      IterateLinear(g.add, g.step, g.log(a), b, c);
    }
  }

  lemma TimesPowers<T(!new)>(g: Generator<T>, i: nat, j: nat)
    requires Primitive(g)
    ensures Times(g, Power(g, i), Power(g, j)) == Power(g, i + j)
  {
    PowerNonzero(g, i);
    PowerNonzero(g, j);
    LogOfPower(g, i);
    LogOfPower(g, j);
    SamePower(g, i % g.order + j % g.order, i + j) by {
      ModulusOfSum(g.order, i, j % g.order);
      ModulusOfSum(g.order, j, i);
    }
  }

  lemma SamePower<T(!new)>(g: Generator<T>, m: nat, n: nat)
    requires Primitive(g) && m % g.order == n % g.order
    ensures Power(g, m) == Power(g, n)
  {
    PowerPeriodic(g, m);
    PowerPeriodic(g, n);
  }

  lemma TimesAssociative<T(!new)>(g: Generator<T>, a: T, b: T, c: T)
    requires Primitive(g)
    ensures Times(g, Times(g, a, b), c) == Times(g, a, Times(g, b, c))
  {
    if a != g.zero && b != g.zero && c != g.zero {
      var i, j, k := g.log(a), g.log(b), g.log(c);
      TimesPowers(g, i + j, k);
      TimesPowers(g, i, j + k);
    }
  }

  lemma TimesInverse<T(!new)>(g: Generator<T>, a: T)
    requires Primitive(g) && a != g.zero
    ensures Times(g, a, Inverse(g, a)) == g.one
  {
    TimesPowers(g, g.log(a), g.order - g.log(a));
  }

  lemma TimesOne<T(!new)>(g: Generator<T>, a: T)
    requires Primitive(g)
    ensures Times(g, a, g.one) == a
  {
    LogUnique(g, g.one, 0);
  }

  ghost predicate Agree<T(!new)>(g: Generator<T>, f: Field<T>) {
    && f.zero == g.zero && f.one == g.one && f.add == g.add
    && (forall a, b :: f.mul(a, b) == Times(g, a, b))
    && (forall a :: f.inv(a) == Inverse(g, a))
  }

  /** Any operations that agree with the logarithmic ones make up a field. */
  lemma GeneratedField<T(!new)>(g: Generator<T>, f: Field<T>)
    requires Primitive(g) && Agree(g, f)
    ensures IsField(f)
  {
    forall a ensures f.mul(a, f.one) == a && f.mul(a, f.zero) == f.zero {
      TimesOne(g, a);
    }
    forall a ensures a != f.zero ==> f.mul(a, f.inv(a)) == f.one {
      if a != f.zero { TimesInverse(g, a); }
    }
    forall a, b, c ensures f.mul(f.mul(a, b), c) == f.mul(a, f.mul(b, c)) {
      TimesAssociative(g, a, b, c);
    }
    forall a, b, c ensures f.mul(a, f.add(b, c)) == f.add(f.mul(a, b), f.mul(a, c)) {
      TimesDistributes(g, a, b, c);
    }
  }

  /**
   Shift-and-add multiplication is multiplication by logarithms, provided that multiplying
   one by `b`'s bits gives `b`.
   */
  lemma ShiftAndAddIsTimes<T(!new)>(g: Generator<T>, double: T -> T, a: T, b: T, bits: seq<bool>)
    requires Primitive(g)
    requires forall x :: double(g.step(x)) == g.step(double(x))
    requires ShiftAndAdd(g.zero, g.add, double, g.one, bits) == b
    requires ShiftAndAdd(g.zero, g.add, double, g.zero, bits) == g.zero
    ensures ShiftAndAdd(g.zero, g.add, double, a, bits) == Times(g, a, b)
  {
    if a != g.zero {
      ShiftAndAddIterate(g.zero, g.add, double, g.step, g.log(a), g.one, bits);
      TimesIsIterate(g, a, b);
    }
  }

  // ----- The order of the generator -----

  /** Seventeen steps at once. */
  function Steps17<T(!new)>(step: T -> T, x: T): T {
    var x5 := step(step(step(step(step(x)))));
    var x10 := step(step(step(step(step(x5)))));
    var x15 := step(step(step(step(step(x10)))));
    step(step(x15))
  }

  lemma Iterate5<T(!new)>(step: T -> T, x: T)
    ensures Iterate(step, 5, x) == step(step(step(step(step(x)))))
  {
    assert Iterate(step, 3, x) == step(step(step(x)));
  }

  lemma IterateSteps17<T(!new)>(step: T -> T, n: nat, x: T)
    ensures Iterate(step, n + 17, x) == Steps17(step, Iterate(step, n, x))
  {
    var y := Iterate(step, n, x);
    Iterate5(step, y);
    IterateAdd(step, 5, n, x);
    Iterate5(step, Iterate(step, n + 5, x));
    IterateAdd(step, 5, n + 5, x);
    Iterate5(step, Iterate(step, n + 10, x));
    IterateAdd(step, 5, n + 10, x);
    assert Iterate(step, n + 17, x) == step(Iterate(step, n + 16, x));
    assert Iterate(step, n + 16, x) == step(Iterate(step, n + 15, x));
  }

  lemma PowerDifference<T(!new)>(g: Generator<T>, a: nat, b: nat)
    requires IsInjective(g.step) && a <= b && Power(g, a) == Power(g, b)
    ensures Power(g, b - a) == g.one
  {
    IterateAdd(g.step, a, b - a, g.one);
    IterateInjective(g.step, a, Power(g, b - a), g.one);
  }

  /** If two powers are one then so is the power of some common divisor. */
  lemma {:induction false} CommonDivisorPower<T(!new)>(g: Generator<T>, a: nat, b: nat) returns (d: nat, p: nat, q: nat)
    requires IsInjective(g.step) && 0 < a && 0 < b
    requires Power(g, a) == g.one && Power(g, b) == g.one
    ensures 0 < d && Power(g, d) == g.one && a == p * d && b == q * d
    decreases a + b
  {
    if a == b {
      d, p, q := a, 1, 1;
    } else if a < b {
      PowerDifference(g, a, b);
      var q';
      d, p, q' := CommonDivisorPower(g, a, b - a);
      q := q' + p;
      assert (q' + p) * d == q' * d + p * d;
    } else {
      PowerDifference(g, b, a);
      var p';
      d, p', q := CommonDivisorPower(g, a - b, b);
      p := p' + q;
      assert (p' + q) * d == p' * d + q * d;
    }
  }

  lemma {:induction false} PowerMultiple<T(!new)>(g: Generator<T>, n: nat, k: nat)
    requires Power(g, n) == g.one
    ensures Power(g, k * n) == g.one
  {
    if k > 0 {
      PowerMultiple(g, n, k - 1);
      assert k * n == n + (k - 1) * n;
      IterateAdd(g.step, n, (k - 1) * n, g.one);
    }
  }
}

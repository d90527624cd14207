/**
 Polynomials over a field of characteristic two, as coefficient sequences with the constant
 term first: evaluation, division by a linear factor, the number of roots, and Lagrange
 interpolation.

 The two theorems are `InterpolationRecovers` (the Lagrange formula reproduces the polynomial
 the samples come from, at every point) and `ExactlyOneFit` (fewer samples than coefficients
 leave the constant term completely undetermined).
 */
module Polynomials {
  import opened Arithmetic
  import opened Fields
  import opened Sequences

  /** The value of the polynomial at `x`. */
  function Eval<T(!new)>(f: Field<T>, c: seq<T>, x: T): T {
    if c == [] then f.zero else f.add(c[0], f.mul(x, Eval(f, c[1..], x)))
  }

  /** `ys` are the values of `c` at `xs`. */
  ghost predicate Fits<T(!new)>(f: Field<T>, c: seq<T>, xs: seq<T>, ys: seq<T>)
    requires |xs| == |ys|
  {
    forall i | 0 <= i < |xs| :: Eval(f, c, xs[i]) == ys[i]
  }

  // ----- Sums and multiples -----

  function AddPoly<T(!new)>(f: Field<T>, p: seq<T>, q: seq<T>): (r: seq<T>)
    requires |p| == |q|
    ensures |r| == |p|
  {
    if p == [] then [] else [f.add(p[0], q[0])] + AddPoly(f, p[1..], q[1..])
  }

  lemma {:induction false} EvalAddPoly<T(!new)>(f: Field<T>, p: seq<T>, q: seq<T>, x: T)
    requires IsField(f) && |p| == |q|
    ensures Eval(f, AddPoly(f, p, q), x) == f.add(Eval(f, p, x), Eval(f, q, x))
  {
    if p == [] {
      AddUnits(f.zero, f.add, f.zero);
    } else {
      EvalAddPoly(f, p[1..], q[1..], x);
      Distribute(f, x, Eval(f, p[1..], x), Eval(f, q[1..], x));
      AddInterchange(f.zero, f.add, p[0], q[0], f.mul(x, Eval(f, p[1..], x)), f.mul(x, Eval(f, q[1..], x)));
    }
  }

  lemma {:induction false} AddPolyAt<T(!new)>(f: Field<T>, p: seq<T>, q: seq<T>, i: nat)
    requires |p| == |q| && i < |p|
    ensures AddPoly(f, p, q)[i] == f.add(p[i], q[i])
  {
    if i > 0 {
      AddPolyAt(f, p[1..], q[1..], i - 1);
    }
  }

  function Scale<T(!new)>(f: Field<T>, k: T, p: seq<T>): (r: seq<T>)
    ensures |r| == |p|
  {
    if p == [] then [] else [f.mul(k, p[0])] + Scale(f, k, p[1..])
  }

  lemma {:induction false} EvalScale<T(!new)>(f: Field<T>, k: T, p: seq<T>, x: T)
    requires IsField(f)
    ensures Eval(f, Scale(f, k, p), x) == f.mul(k, Eval(f, p, x))
  {
    if p == [] {
      MulUnits(f, k);
    } else {
      var rest := Eval(f, p[1..], x);
      EvalScale(f, k, p[1..], x);
      MulAssoc(f, x, k, rest);
      MulComm(f, x, k);
      MulAssoc(f, k, x, rest);
      Distribute(f, k, p[0], f.mul(x, rest));
    }
  }

  lemma {:induction false} EvalSnocZero<T(!new)>(f: Field<T>, p: seq<T>, x: T)
    requires IsField(f)
    ensures Eval(f, p + [f.zero], x) == Eval(f, p, x)
  {
    if p == [] {
      MulUnits(f, x);
      AddUnits(f.zero, f.add, f.zero);
    } else {
      assert (p + [f.zero])[1..] == p[1..] + [f.zero];
      EvalSnocZero(f, p[1..], x);
    }
  }

  lemma EvalConsZero<T(!new)>(f: Field<T>, p: seq<T>, x: T)
    requires IsField(f)
    ensures Eval(f, [f.zero] + p, x) == f.mul(x, Eval(f, p, x))
  {
    assert ([f.zero] + p)[1..] == p;
    AddUnits(f.zero, f.add, f.mul(x, Eval(f, p, x)));
  }

  /** The coefficient sequence with zeros appended up to length `n`. */
  function PadZero<T(!new)>(f: Field<T>, c: seq<T>, n: nat): (p: seq<T>)
    requires |c| <= n
    ensures |p| == n
    decreases n
  {
    if |c| == n then c else PadZero(f, c, n - 1) + [f.zero]
  }

  lemma {:induction false} EvalPadZero<T(!new)>(f: Field<T>, c: seq<T>, n: nat, x: T)
    requires IsField(f) && |c| <= n
    ensures Eval(f, PadZero(f, c, n), x) == Eval(f, c, x)
    decreases n
  {
    if |c| < n {
      EvalPadZero(f, c, n - 1, x);
      EvalSnocZero(f, PadZero(f, c, n - 1), x);
    }
  }

  /** The coefficients of `(x + r) * p(x)`. */
  function MulLinear<T(!new)>(f: Field<T>, r: T, p: seq<T>): (q: seq<T>)
    ensures |q| == |p| + 1
  {
    AddPoly(f, [f.zero] + p, Scale(f, r, p) + [f.zero])
  }

  lemma EvalMulLinear<T(!new)>(f: Field<T>, r: T, p: seq<T>, x: T)
    requires IsField(f)
    ensures Eval(f, MulLinear(f, r, p), x) == f.mul(f.add(x, r), Eval(f, p, x))
  {
    EvalAddPoly(f, [f.zero] + p, Scale(f, r, p) + [f.zero], x);
    EvalConsZero(f, p, x);
    EvalSnocZero(f, Scale(f, r, p), x);
    EvalScale(f, r, p, x);
    Distribute(f, Eval(f, p, x), x, r);
  }

  // ----- A polynomial has fewer roots than coefficients -----

  /** The quotient of `p(x)` by `(x + r)`. */
  function DivLinear<T(!new)>(f: Field<T>, r: T, p: seq<T>): (q: seq<T>)
    ensures |q| == if p == [] then 0 else |p| - 1
  {
    if |p| <= 1 then [] else [Eval(f, p[1..], r)] + DivLinear(f, r, p[1..])
  }

  /** Division with remainder: `p(x) = (x + r) * q(x) + p(r)`. */
  lemma {:induction false} DivisionWithRemainder<T(!new)>(f: Field<T>, r: T, p: seq<T>, x: T)
    requires IsField(f)
    ensures Eval(f, p, x) == f.add(f.mul(f.add(x, r), Eval(f, DivLinear(f, r, p), x)), Eval(f, p, r))
  {
    if |p| <= 1 {
      MulUnits(f, f.add(x, r));
      MulUnits(f, x);
      MulUnits(f, r);
      AddUnits(f.zero, f.add, Eval(f, p, r));
    } else {
      var tail, q := p[1..], DivLinear(f, r, p[1..]);
      DivisionWithRemainder(f, r, tail, x);
      assert DivLinear(f, r, p)[1..] == q;
      DivisionStep(f, x, r, p[0], Eval(f, q, x), Eval(f, tail, r));
    }
  }

  /** The algebra of one step, with `d` the quotient's value and `e` the remainder so far. */
  lemma DivisionStep<T(!new)>(f: Field<T>, x: T, r: T, c: T, d: T, e: T)
    requires IsField(f)
    ensures f.add(c, f.mul(x, f.add(f.mul(f.add(x, r), d), e)))
         == f.add(f.mul(f.add(x, r), f.add(e, f.mul(x, d))), f.add(c, f.mul(r, e)))
  {
    var s := f.add(x, r);
    // Left: c + (x*(s*d) + x*e).
    Distribute(f, x, f.mul(s, d), e);
    // Right: (s*e + s*(x*d)) + (c + r*e), where s*e = x*e + r*e.
    Distribute(f, s, e, f.mul(x, d));
    Distribute(f, e, x, r);
    MulAssoc(f, x, s, d);
    MulComm(f, x, s);
    MulAssoc(f, s, x, d);
    RearrangeStep(f.zero, f.add, c, f.mul(s, f.mul(x, d)), f.mul(x, e), f.mul(r, e));
  }

  lemma RearrangeStep<T(!new)>(zero: T, add: (T, T) -> T, c: T, u: T, v: T, w: T)
    requires IsXorGroup(zero, add)
    ensures add(c, add(u, v)) == add(add(add(v, w), u), add(c, w))
  {
    AddInterchange(zero, add, add(v, w), u, c, w);
    AddComm(zero, add, add(v, w), c);
    AddAssoc(zero, add, c, add(v, w), add(u, w));
    AddComm(zero, add, v, w);
    AddComm(zero, add, u, w);
    AddInterchange(zero, add, w, v, w, u);
    AddUnits(zero, add, w);
    AddUnits(zero, add, add(v, u));
    AddComm(zero, add, v, u);
  }

  lemma {:induction false} ZeroQuotientZeroPoly<T(!new)>(f: Field<T>, r: T, p: seq<T>)
    requires IsField(f)
    requires AllEqual(DivLinear(f, r, p), f.zero) && Eval(f, p, r) == f.zero
    ensures AllEqual(p, f.zero)
  {
    if |p| == 1 {
      MulUnits(f, r);
      AddUnits(f.zero, f.add, p[0]);
    } else if |p| > 1 {
      var q := DivLinear(f, r, p);
      assert q[0] == Eval(f, p[1..], r) == f.zero;
      var rest := DivLinear(f, r, p[1..]);
      assert q == [q[0]] + rest;
      forall i | 0 <= i < |rest| ensures rest[i] == f.zero {
        assert rest[i] == q[i + 1];
      }
      ZeroQuotientZeroPoly(f, r, p[1..]);
      MulUnits(f, r);
      AddUnits(f.zero, f.add, p[0]);
      assert forall i | 1 <= i < |p| :: p[i] == p[1..][i - 1];
    }
  }

  /** A polynomial that vanishes at as many distinct points as it has coefficients is zero. */
  lemma {:induction false} TooManyRoots<T(!new)>(f: Field<T>, p: seq<T>, xs: seq<T>)
    requires IsField(f) && NoDuplicates(xs) && |xs| == |p|
    requires forall i | 0 <= i < |xs| :: Eval(f, p, xs[i]) == f.zero
    ensures AllEqual(p, f.zero)
    decreases |p|
  {
    if p != [] {
      var r, rest := xs[0], xs[1..];
      var q := DivLinear(f, r, p);
      forall i | 0 <= i < |rest|
        ensures Eval(f, q, rest[i]) == f.zero
      {
        DivisionWithRemainder(f, r, p, rest[i]);
        AddUnits(f.zero, f.add, f.mul(f.add(rest[i], r), Eval(f, q, rest[i])));
        NoZeroDivisors(f, f.add(rest[i], r), Eval(f, q, rest[i]));
        AddCancel(f.zero, f.add, rest[i], r);
        assert rest[i] == xs[i + 1];
      }
      TooManyRoots(f, q, rest);
      ZeroQuotientZeroPoly(f, r, p);
    }
  }

  /** Two polynomials of one length that agree at that many distinct points are equal. */
  lemma UniqueFit<T(!new)>(f: Field<T>, p: seq<T>, q: seq<T>, xs: seq<T>)
    requires IsField(f) && NoDuplicates(xs) && |xs| == |p| == |q|
    requires forall i | 0 <= i < |xs| :: Eval(f, p, xs[i]) == Eval(f, q, xs[i])
    ensures p == q
  {
    var d := AddPoly(f, p, q);
    forall i | 0 <= i < |xs|
      ensures Eval(f, d, xs[i]) == f.zero
    {
      EvalAddPoly(f, p, q, xs[i]);
      AddUnits(f.zero, f.add, Eval(f, p, xs[i]));
    }
    TooManyRoots(f, d, xs);
    forall i | 0 <= i < |p|
      ensures p[i] == q[i]
    {
      AddPolyAt(f, p, q, i);
      AddCancel(f.zero, f.add, p[i], q[i]);
    }
  }

  // ----- Lagrange interpolation -----

  /** `y` times the product of `x + xs[k]` over all `k < j` other than `i`. */
  function Numerator<T(!new)>(f: Field<T>, xs: seq<T>, i: nat, j: nat, x: T, y: T): T
    requires j <= |xs|
  {
    if j == 0 then y
    else if j - 1 == i then Numerator(f, xs, i, j - 1, x, y)
    else f.mul(Numerator(f, xs, i, j - 1, x, y), f.add(x, xs[j - 1]))
  }

  /** The denominator of term `i`: the same product at `x = xs[i]`, starting from one. */
  function Denominator<T(!new)>(f: Field<T>, xs: seq<T>, i: nat, j: nat): T
    requires i < |xs| && j <= |xs|
  {
    Numerator(f, xs, i, j, xs[i], f.one)
  }

  /** Term `i` of the Lagrange formula. */
  function Term<T(!new)>(f: Field<T>, xs: seq<T>, ys: seq<T>, i: nat, x: T): T
    requires i < |xs| == |ys|
  {
    f.mul(Numerator(f, xs, i, |xs|, x, ys[i]), f.inv(Denominator(f, xs, i, |xs|)))
  }

  function Terms<T(!new)>(f: Field<T>, xs: seq<T>, ys: seq<T>, x: T): nat -> T
    requires |xs| == |ys|
  {
    (i: nat) => if i < |xs| then Term(f, xs, ys, i, x) else f.zero
  }

  function Sum<T(!new)>(f: Field<T>, terms: nat -> T, n: nat): T {
    if n == 0 then f.zero else f.add(Sum(f, terms, n - 1), terms(n - 1))
  }

  /** The Lagrange formula: the value at `x` of the polynomial through the samples. */
  function Lagrange<T(!new)>(f: Field<T>, xs: seq<T>, ys: seq<T>, x: T): T
    requires |xs| == |ys|
  {
    Sum(f, Terms(f, xs, ys, x), |xs|)
  }

  /** `Numerator` as a polynomial in `x`. */
  function NumeratorPoly<T(!new)>(f: Field<T>, xs: seq<T>, i: nat, j: nat, y: T): (p: seq<T>)
    requires j <= |xs|
    ensures |p| == if i < j then j else j + 1
  {
    if j == 0 then [y]
    else if j - 1 == i then NumeratorPoly(f, xs, i, j - 1, y)
    else MulLinear(f, xs[j - 1], NumeratorPoly(f, xs, i, j - 1, y))
  }

  /** `Term` as a polynomial in `x`. */
  function TermPoly<T(!new)>(f: Field<T>, xs: seq<T>, ys: seq<T>, i: nat): (p: seq<T>)
    requires i < |xs| == |ys|
    ensures |p| == |xs|
  {
    Scale(f, f.inv(Denominator(f, xs, i, |xs|)), NumeratorPoly(f, xs, i, |xs|, ys[i]))
  }

  function TermPolys<T(!new)>(f: Field<T>, xs: seq<T>, ys: seq<T>): nat -> seq<T>
    requires |xs| == |ys|
  {
    (i: nat) => if i < |xs| then TermPoly(f, xs, ys, i) else []
  }

  function SumPoly<T(!new)>(f: Field<T>, terms: nat -> seq<T>, n: nat, length: nat): (p: seq<T>)
    requires forall i | 0 <= i < n :: |terms(i)| == length
    ensures |p| == length
  {
    if n == 0 then PadZero(f, [], length) else AddPoly(f, SumPoly(f, terms, n - 1, length), terms(n - 1))
  }

  /** `Lagrange` as a polynomial in `x`, with as many coefficients as there are samples. */
  function LagrangePoly<T(!new)>(f: Field<T>, xs: seq<T>, ys: seq<T>): (p: seq<T>)
    requires |xs| == |ys|
    ensures |p| == |xs|
  {
    SumPoly(f, TermPolys(f, xs, ys), |xs|, |xs|)
  }

  lemma {:induction false} EvalNumeratorPoly<T(!new)>(f: Field<T>, xs: seq<T>, i: nat, j: nat, x: T, y: T)
    requires IsField(f) && j <= |xs|
    ensures Eval(f, NumeratorPoly(f, xs, i, j, y), x) == Numerator(f, xs, i, j, x, y)
  {
    if j == 0 {
      MulUnits(f, x);
      AddUnits(f.zero, f.add, y);
    } else {
      EvalNumeratorPoly(f, xs, i, j - 1, x, y);
      if j - 1 != i {
        EvalMulLinear(f, xs[j - 1], NumeratorPoly(f, xs, i, j - 1, y), x);
        MulComm(f, Numerator(f, xs, i, j - 1, x, y), f.add(x, xs[j - 1]));
      }
    }
  }

  lemma EvalTermPoly<T(!new)>(f: Field<T>, xs: seq<T>, ys: seq<T>, i: nat, x: T)
    requires IsField(f) && i < |xs| == |ys|
    ensures Eval(f, TermPoly(f, xs, ys, i), x) == Term(f, xs, ys, i, x)
  {
    var k, num := f.inv(Denominator(f, xs, i, |xs|)), NumeratorPoly(f, xs, i, |xs|, ys[i]);
    EvalScale(f, k, num, x);
    EvalNumeratorPoly(f, xs, i, |xs|, x, ys[i]);
    MulComm(f, k, Eval(f, num, x));
  }

  lemma {:induction false} EvalSumPoly<T(!new)>(f: Field<T>, polys: nat -> seq<T>, terms: nat -> T, n: nat, length: nat, x: T)
    requires IsField(f)
    requires forall i | 0 <= i < n :: |polys(i)| == length && Eval(f, polys(i), x) == terms(i)
    ensures Eval(f, SumPoly(f, polys, n, length), x) == Sum(f, terms, n)
  {
    if n == 0 {
      EvalPadZero(f, [], length, x);
    } else {
      EvalSumPoly(f, polys, terms, n - 1, length, x);
      EvalAddPoly(f, SumPoly(f, polys, n - 1, length), polys(n - 1), x);
    }
  }

  lemma EvalLagrangePoly<T(!new)>(f: Field<T>, xs: seq<T>, ys: seq<T>, x: T)
    requires IsField(f) && |xs| == |ys|
    ensures Eval(f, LagrangePoly(f, xs, ys), x) == Lagrange(f, xs, ys, x)
  {
    var polys, terms := TermPolys(f, xs, ys), Terms(f, xs, ys, x);
    forall i | 0 <= i < |xs|
      ensures Eval(f, polys(i), x) == terms(i)
    {
      EvalTermPoly(f, xs, ys, i, x);
    }
    EvalSumPoly(f, polys, terms, |xs|, |xs|, x);
  }

  lemma {:induction false} NumeratorFactorsOut<T(!new)>(f: Field<T>, xs: seq<T>, i: nat, j: nat, x: T, y: T)
    requires IsField(f) && j <= |xs|
    ensures Numerator(f, xs, i, j, x, y) == f.mul(y, Numerator(f, xs, i, j, x, f.one))
  {
    if j == 0 {
      MulUnits(f, y);
    } else {
      NumeratorFactorsOut(f, xs, i, j - 1, x, y);
      MulAssoc(f, y, Numerator(f, xs, i, j - 1, x, f.one), f.add(x, xs[j - 1]));
    }
  }

  lemma {:induction false} DenominatorNonzero<T(!new)>(f: Field<T>, xs: seq<T>, i: nat, j: nat)
    requires IsField(f) && NoDuplicates(xs) && i < |xs| && j <= |xs|
    ensures Denominator(f, xs, i, j) != f.zero
  {
    if j > 0 {
      DenominatorNonzero(f, xs, i, j - 1);
      AddCancel(f.zero, f.add, xs[i], xs[j - 1]);
      NoZeroDivisors(f, Denominator(f, xs, i, j - 1), f.add(xs[i], xs[j - 1]));
    }
  }

  /** Term `i` vanishes at every other sample point. */
  lemma {:induction false} NumeratorVanishes<T(!new)>(f: Field<T>, xs: seq<T>, i: nat, j: nat, k: nat, y: T)
    requires IsField(f) && i != k && k < j <= |xs|
    ensures Numerator(f, xs, i, j, xs[k], y) == f.zero
  {
    if j - 1 == k {
      AddUnits(f.zero, f.add, xs[k]);
      MulUnits(f, Numerator(f, xs, i, j - 1, xs[k], y));
    } else {
      NumeratorVanishes(f, xs, i, j - 1, k, y);
      MulUnits(f, f.add(xs[k], xs[j - 1]));
    }
  }

  lemma TermAtSample<T(!new)>(f: Field<T>, xs: seq<T>, ys: seq<T>, i: nat, k: nat)
    requires IsField(f) && NoDuplicates(xs) && i < |xs| == |ys| && k < |xs|
    ensures Term(f, xs, ys, i, xs[k]) == if i == k then ys[k] else f.zero
  {
    var den := Denominator(f, xs, i, |xs|);
    if i == k {
      NumeratorFactorsOut(f, xs, i, |xs|, xs[k], ys[i]);
      DenominatorNonzero(f, xs, i, |xs|);
      MulAssoc(f, ys[i], den, f.inv(den));
      MulInv(f, den);
      MulUnits(f, ys[i]);
    } else {
      NumeratorVanishes(f, xs, i, |xs|, k, ys[i]);
      MulUnits(f, f.inv(den));
    }
  }

  lemma {:induction false} SumOfOneTerm<T(!new)>(f: Field<T>, terms: nat -> T, n: nat, k: nat, y: T)
    requires IsField(f)
    requires forall i | 0 <= i < n :: terms(i) == if i == k then y else f.zero
    ensures Sum(f, terms, n) == if k < n then y else f.zero
  {
    if n > 0 {
      SumOfOneTerm(f, terms, n - 1, k, y);
      AddUnits(f.zero, f.add, f.zero);
      AddUnits(f.zero, f.add, y);
    }
  }

  lemma LagrangeAtSample<T(!new)>(f: Field<T>, xs: seq<T>, ys: seq<T>, k: nat)
    requires IsField(f) && NoDuplicates(xs) && k < |xs| == |ys|
    ensures Lagrange(f, xs, ys, xs[k]) == ys[k]
  {
    var terms := Terms(f, xs, ys, xs[k]);
    forall i | 0 <= i < |xs|
      ensures terms(i) == if i == k then ys[k] else f.zero
    {
      TermAtSample(f, xs, ys, i, k);
    }
    SumOfOneTerm(f, terms, |xs|, k, ys[k]);
  }

  /**
   Interpolating at least as many distinct samples as the polynomial has coefficients gives
   back its value at every point.
   */
  lemma InterpolationRecovers<T(!new)>(f: Field<T>, c: seq<T>, xs: seq<T>, ys: seq<T>, x: T)
    requires IsField(f) && NoDuplicates(xs) && |c| <= |xs| == |ys| && Fits(f, c, xs, ys)
    ensures Lagrange(f, xs, ys, x) == Eval(f, c, x)
  {
    var p, q := LagrangePoly(f, xs, ys), PadZero(f, c, |xs|);
    forall i | 0 <= i < |xs|
      ensures Eval(f, p, xs[i]) == Eval(f, q, xs[i])
    {
      EvalLagrangePoly(f, xs, ys, xs[i]);
      LagrangeAtSample(f, xs, ys, i);
      EvalPadZero(f, c, |xs|, xs[i]);
    }
    UniqueFit(f, p, q, xs);
    EvalLagrangePoly(f, xs, ys, x);
    EvalPadZero(f, c, |xs|, x);
  }

  lemma EvalAtZero<T(!new)>(f: Field<T>, c: seq<T>)
    requires IsField(f) && c != []
    ensures Eval(f, c, f.zero) == c[0]
  {
    MulUnits(f, Eval(f, c[1..], f.zero));
    AddUnits(f.zero, f.add, c[0]);
  }

  /**
   For any samples at nonzero distinct points and any constant term, exactly one choice of
   as many further coefficients as there are samples fits them.
   */
  lemma ExactlyOneFit<T(!new)>(f: Field<T>, constant: T, xs: seq<T>, ys: seq<T>) returns (rest: seq<T>)
    requires IsField(f) && NoDuplicates(xs) && |xs| == |ys| && f.zero !in xs
    ensures |rest| == |xs| && Fits(f, [constant] + rest, xs, ys)
    ensures forall other: seq<T> | |other| == |xs| && Fits(f, [constant] + other, xs, ys) :: other == rest
  {
    var xs', ys' := [f.zero] + xs, [constant] + ys;
    var p := LagrangePoly(f, xs', ys');
    forall i | 0 <= i < |xs'|
      ensures Eval(f, p, xs'[i]) == ys'[i]
    {
      EvalLagrangePoly(f, xs', ys', xs'[i]);
      LagrangeAtSample(f, xs', ys', i);
    }
    EvalAtZero(f, p);
    assert xs'[0] == f.zero && ys'[0] == constant;
    rest := p[1..];
    assert p == [constant] + rest;
    forall i | 0 <= i < |xs|
      ensures Eval(f, p, xs[i]) == ys[i]
    {
      assert xs'[i + 1] == xs[i];
    }
    forall other: seq<T> | |other| == |xs| && Fits(f, [constant] + other, xs, ys)
      ensures other == rest
    {
      var q := [constant] + other;
      EvalAtZero(f, q);
      assert forall i | 1 <= i < |xs'| :: xs'[i] == xs[i - 1];
      UniqueFit(f, p, q, xs');
      assert other == q[1..];
    }
  }
}

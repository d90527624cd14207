/**
 Fields of characteristic two, described by their operations.

 The algebra behind secret sharing (polynomial identities, interpolation) holds in every such
 field, so it is proved once over this description and applied to GF(2^8) afterwards.
 */
module Fields {

  datatype Field<!T> = Field(zero: T, one: T, add: (T, T) -> T, mul: (T, T) -> T, inv: T -> T)

  // The axioms are instantiated only where a proof asks for them, by naming the operands.
  ghost predicate At<T>(a: T) { true }
  ghost predicate At2<T>(a: T, b: T) { true }
  ghost predicate At3<T>(a: T, b: T, c: T) { true }

  /** Addition is an abelian group in which every element is its own inverse. */
  ghost predicate IsXorGroup<T(!new)>(zero: T, add: (T, T) -> T) {
    && (forall a {:trigger At(a)} :: add(a, zero) == a && add(a, a) == zero)
    && (forall a, b {:trigger At2(a, b)} :: add(a, b) == add(b, a))
    && (forall a, b, c {:trigger At3(a, b, c)} :: add(add(a, b), c) == add(a, add(b, c)))
  }

  ghost predicate IsField<T(!new)>(f: Field<T>) {
    && IsXorGroup(f.zero, f.add)
    && f.one != f.zero
    && (forall a {:trigger At(a)} :: f.mul(a, f.one) == a && f.mul(a, f.zero) == f.zero)
    && (forall a {:trigger At(a)} :: a != f.zero ==> f.mul(a, f.inv(a)) == f.one)
    && (forall a, b {:trigger At2(a, b)} :: f.mul(a, b) == f.mul(b, a))
    && (forall a, b, c {:trigger At3(a, b, c)} :: f.mul(f.mul(a, b), c) == f.mul(a, f.mul(b, c)))
    && (forall a, b, c {:trigger At3(a, b, c)} :: f.mul(a, f.add(b, c)) == f.add(f.mul(a, b), f.mul(a, c)))
  }

  // ----- Addition -----

  lemma AddUnits<T(!new)>(zero: T, add: (T, T) -> T, a: T)
    requires IsXorGroup(zero, add)
    ensures add(a, zero) == a && add(zero, a) == a && add(a, a) == zero
  {
    assert At(a) && At2(a, zero);
  }

  lemma AddComm<T(!new)>(zero: T, add: (T, T) -> T, a: T, b: T)
    requires IsXorGroup(zero, add)
    ensures add(a, b) == add(b, a)
  {
    assert At2(a, b);
  }

  lemma AddAssoc<T(!new)>(zero: T, add: (T, T) -> T, a: T, b: T, c: T)
    requires IsXorGroup(zero, add)
    ensures add(add(a, b), c) == add(a, add(b, c))
  {
    assert At3(a, b, c);
  }

  lemma AddInterchange<T(!new)>(zero: T, add: (T, T) -> T, a: T, b: T, c: T, d: T)
    requires IsXorGroup(zero, add)
    ensures add(add(a, b), add(c, d)) == add(add(a, c), add(b, d))
  {
    assert At3(a, b, add(c, d)) && At3(b, c, d) && At2(b, c);
    assert At3(c, b, d) && At3(a, c, add(b, d));
  }

  lemma AddCancel<T(!new)>(zero: T, add: (T, T) -> T, a: T, b: T)
    requires IsXorGroup(zero, add)
    ensures add(add(a, b), b) == a
    ensures add(a, b) == zero <==> a == b
  {
    AddAssoc(zero, add, a, b, b);
    AddUnits(zero, add, a);
    AddUnits(zero, add, b);
  }

  // ----- Multiplication -----

  lemma MulUnits<T(!new)>(f: Field<T>, a: T)
    requires IsField(f)
    ensures f.mul(a, f.one) == a && f.mul(f.one, a) == a
    ensures f.mul(a, f.zero) == f.zero && f.mul(f.zero, a) == f.zero
  {
    assert At(a) && At2(a, f.one) && At2(a, f.zero);
  }

  lemma MulComm<T(!new)>(f: Field<T>, a: T, b: T)
    requires IsField(f)
    ensures f.mul(a, b) == f.mul(b, a)
  {
    assert At2(a, b);
  }

  lemma MulAssoc<T(!new)>(f: Field<T>, a: T, b: T, c: T)
    requires IsField(f)
    ensures f.mul(f.mul(a, b), c) == f.mul(a, f.mul(b, c))
  {
    assert At3(a, b, c);
  }

  lemma Distribute<T(!new)>(f: Field<T>, a: T, b: T, c: T)
    requires IsField(f)
    ensures f.mul(a, f.add(b, c)) == f.add(f.mul(a, b), f.mul(a, c))
    ensures f.mul(f.add(b, c), a) == f.add(f.mul(b, a), f.mul(c, a))
  {
    assert At3(a, b, c);
    assert At2(a, f.add(b, c)) && At2(a, b) && At2(a, c);
  }

  lemma MulInv<T(!new)>(f: Field<T>, a: T)
    requires IsField(f) && a != f.zero
    ensures f.mul(a, f.inv(a)) == f.one
  {
    assert At(a);
  }

  lemma NoZeroDivisors<T(!new)>(f: Field<T>, a: T, b: T)
    requires IsField(f)
    ensures f.mul(a, b) == f.zero <==> a == f.zero || b == f.zero
  {
    MulUnits(f, a);
    MulUnits(f, b);
    if a != f.zero && f.mul(a, b) == f.zero {
      MulInv(f, a);
      MulComm(f, a, f.inv(a));
      MulAssoc(f, f.inv(a), a, b);
      MulUnits(f, f.inv(a));
    }
  }
}

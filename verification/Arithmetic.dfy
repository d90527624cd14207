/** Facts about products, quotients and remainders of natural numbers. */
module Arithmetic {

  lemma {:induction false} ProductGap(m: nat, a: nat, b: nat)
    requires a < b
    ensures m * b >= m * a + m
    decreases b
  {
    assert m * b == m * (b - 1) + m;
    if a < b - 1 {
      ProductGap(m, a, b - 1);
    }
  }

  lemma ModulusUnique(n: nat, m: nat, q: nat, r: nat)
    requires r < m && n == m * q + r
    ensures n % m == r && n / m == q
  {
    var q' := n / m;
    assert n == m * q' + n % m;
    if q < q' {
      ProductGap(m, q, q');
    } else if q' < q {
      ProductGap(m, q', q);
    }
  }

  lemma SubtractModulus(n: nat, m: nat)
    requires 0 < m <= n
    ensures (n - m) % m == n % m && (n - m) / m == n / m - 1
  {
    var q, r := (n - m) / m, (n - m) % m;
    assert n == m * (q + 1) + r;
    ModulusUnique(n, m, q + 1, r);
  }

  lemma ExactQuotient(n: nat, m: nat)
    requires m > 0 && n % m == 0
    ensures n / m * m == n
  {
  }

  lemma ModulusOfSum(m: nat, a: nat, b: nat)
    requires m > 0
    ensures (a % m + b) % m == (a + b) % m
  {
    var q, r := (a % m + b) / m, (a % m + b) % m;
    assert a + b == m * (a / m) + (a % m + b);
    assert a + b == m * (a / m + q) + r;
    ModulusUnique(a + b, m, a / m + q, r);
  }

  function Least(a: nat, b: nat): nat {
    if a < b then a else b
  }

  // ----- Counting -----

  ghost predicate NoDuplicates<T>(s: seq<T>) {
    forall i, j | 0 <= i < j < |s| :: s[i] != s[j]
  }

  ghost function Elements<T>(s: seq<T>): set<T> {
    set x | x in s
  }

  lemma {:induction false} CardinalityOfElements<T>(s: seq<T>)
    ensures |Elements(s)| <= |s|
    ensures NoDuplicates(s) <==> |Elements(s)| == |s|
  {
    if s != [] {
      var rest := s[..|s| - 1];
      CardinalityOfElements(rest);
      var last := s[|s| - 1];
      assert Elements(s) == Elements(rest) + {last};
      if last in rest {
        assert Elements(s) == Elements(rest);
        assert !NoDuplicates(s) by { var i :| 0 <= i < |rest| && rest[i] == last; assert s[i] == s[|s| - 1]; }
      } else {
        assert NoDuplicates(s) <==> NoDuplicates(rest) by {
          assert forall i | 0 <= i < |rest| :: rest[i] == s[i];
        }
      }
    }
  }

  /** A subset of at least the same size is the whole set. */
  lemma SameSizeSubset<T>(a: set<T>, b: set<T>)
    requires a <= b && |a| >= |b|
    ensures a == b
  {
    assert b == a + (b - a);
    assert |b| == |a| + |b - a|;
  }

  lemma SubsetSize<T>(a: set<T>, b: set<T>)
    requires a <= b
    ensures |a| <= |b|
  {
    assert b == a + (b - a);
  }

  ghost function Range(lo: int, hi: int): (r: set<int>)
    requires lo <= hi
    ensures forall k :: k in r <==> lo <= k < hi
    ensures |r| == hi - lo
    decreases hi - lo
  {
    if lo == hi then {} else Range(lo, hi - 1) + {hi - 1}
  }

  /** As many distinct numbers as the range has contain every number of the range. */
  lemma Pigeonhole(s: seq<int>, lo: int, hi: int, v: int)
    requires NoDuplicates(s) && |s| == hi - lo
    requires forall i | 0 <= i < |s| :: lo <= s[i] < hi
    requires lo <= v < hi
    ensures v in s
  {
    CardinalityOfElements(s);
    SameSizeSubset(Elements(s), Range(lo, hi));
    assert v in Range(lo, hi);
  }

  // ----- Growing and shrinking a sequence without duplicates -----

  lemma AppendDistinct<T>(s: seq<T>, x: T)
    ensures Elements(s + [x]) == Elements(s) + {x}
    ensures NoDuplicates(s + [x]) <==> NoDuplicates(s) && x !in s
  {
    var t := s + [x];
    assert forall i | 0 <= i < |s| :: t[i] == s[i];
    assert t[|s|] == x;
    assert forall y :: y in t <==> y in s || y == x;
    if NoDuplicates(t) {
      assert NoDuplicates(s) by {
        forall i, j | 0 <= i < j < |s| ensures s[i] != s[j] { assert t[i] != t[j]; }
      }
    }
  }

  lemma SuffixDistinct<T>(s: seq<T>, k: nat)
    requires k <= |s| && NoDuplicates(s)
    ensures NoDuplicates(s[k..])
    ensures forall x | x in s[k..] :: x in s && x !in s[..k]
  {
    forall i, j | 0 <= i < j < |s[k..]| ensures s[k..][i] != s[k..][j] {
      assert s[k + i] != s[k + j];
    }
    forall x | x in s[k..] ensures x in s && x !in s[..k] {
      var i :| 0 <= i < |s[k..]| && s[k..][i] == x;
      assert s[k + i] == x;
    }
  }

  lemma DropFirst<T>(s: seq<T>)
    requires s != [] && NoDuplicates(s)
    ensures NoDuplicates(s[1..]) && Elements(s[1..]) == Elements(s) - {s[0]}
  {
    SuffixDistinct(s, 1);
    assert s == [s[0]] + s[1..];
    assert s[..1] == [s[0]];
  }
}

/**
 The search for a bucket count: the primality test by small divisors, how far it can
 be trusted, and why the search ends.
 */
module Primes {

  /* isProbablePrime tries the odd divisors 3, 5, ..., 49. */
  const DIVISOR_END := 51

  /** What the test finds out about an odd number: no smaller odd number below 51, but 1, divides it. */
  ghost predicate ProbablePrime(n: nat) {
    Survives(n, DIVISOR_END)
  }

  /** No smaller odd number below `end`, but 1, divides it. */
  ghost predicate Survives(n: nat, end: nat) {
    forall i :: 3 <= i < end && i % 2 == 1 && i < n ==> n % i != 0
  }

  lemma SmallerDivides(n: nat, i: nat)
    requires 3 <= i && n % 2 == 1 && n != i && n % i == 0
    ensures i < n
  {
  }

  lemma SurvivesStep(n: nat, i: nat)
    requires 3 <= i < DIVISOR_END && i % 2 == 1 && Survives(n, i)
    ensures n == i ==> Survives(n, DIVISOR_END)
    ensures i < n && n % i == 0 ==> !Survives(n, DIVISOR_END)
    ensures n % i != 0 ==> Survives(n, i + 2)
  {
  }

  ghost predicate Prime(n: nat) {
    n >= 2 && forall d :: 2 <= d < n ==> n % d != 0
  }

  lemma SurvivesNone(n: nat)
    ensures Survives(n, 3)
  {
  }

  method IsProbablePrime(oddNumber: nat) returns (r: bool)
    requires oddNumber % 2 == 1
    ensures r <==> ProbablePrime(oddNumber)
  {
    hide Survives;
    var i := 3;
    SurvivesNone(oddNumber);
    while i < DIVISOR_END
      invariant 3 <= i <= DIVISOR_END && i % 2 == 1 && Survives(oddNumber, i)
    {
      SurvivesStep(oddNumber, i);
      if oddNumber == i {
        return true;
      } else if oddNumber % i == 0 {
        SmallerDivides(oddNumber, i);
        return false;
      }
      i := i + 2;
    }
    return true;
  }

  // ---------------------------------------------------------------- how far the test is right

  lemma MulLe(a: nat, b: nat, d: nat)
    requires a <= b
    ensures a * d <= b * d
  {
  }

  lemma MulLt(a: nat, b: nat, d: nat)
    ensures a < b ==> a * d + d <= b * d
  {
    if a < b {
      MulLe(a + 1, b, d);
      assert (a + 1) * d == a * d + d;
    }
  }

  lemma ModUnique(n: nat, d: nat, k: nat, r: nat)
    requires 0 <= r < d && n == k * d + r
    ensures n % d == r && n / d == k
  {
    var q := n / d;
    assert n == q * d + n % d;
    MulLt(q, k, d);
    MulLt(k, q, d);
  }

  lemma Divides(n: nat, d: nat, k: nat)
    requires d > 0 && n == k * d
    ensures n % d == 0
  {
    ModUnique(n, d, k, 0);
  }

  /** A divisor of a divisor divides. */
  lemma DividesTransitive(n: nat, d: nat, e: nat)
    requires d > 0 && e > 0 && n % d == 0 && d % e == 0
    ensures n % e == 0
  {
    var k, j := n / d, d / e;
    assert n == k * d && d == j * e;
    assert k * (j * e) == (k * j) * e;
    Divides(n, e, k * j);
  }

  ghost predicate NoneDivides(n: nat, end: nat) {
    forall k :: 2 <= k < end ==> n % k != 0
  }

  /** The smallest divisor from 2 on. */
  lemma {:induction false} SmallestDivisor(n: nat, from: nat) returns (d: nat)
    requires 2 <= from <= n && NoneDivides(n, from)
    ensures 2 <= d <= n && n % d == 0 && NoneDivides(n, d)
    decreases n - from
  {
    if n % from == 0 {
      d := from;
    } else {
      Divides(n, n, 1);
      d := SmallestDivisor(n, from + 1);
    }
  }

  /** The smallest divisor of a composite number is at most its square root. */
  lemma SmallestDivisorIsSmall(n: nat, d: nat)
    requires 2 <= d < n && n % d == 0 && NoneDivides(n, d)
    ensures d * d <= n
  {
    var k := n / d;
    assert n == k * d;
    MulLt(k, 2, d);
    assert d * k == k * d;
    Divides(n, k, d);
    assert k >= d;
    MulLe(d, k, d);
  }

  /** Below 53 * 53 the test is exact. */
  lemma ExactBelow2809(n: nat)
    requires 3 <= n < 2809 && n % 2 == 1
    ensures ProbablePrime(n) <==> Prime(n)
  {
    if !Prime(n) {
      var d := SmallestDivisor(n, 2);
      SmallestDivisorIsSmall(n, d);
      if 53 <= d {
        MulLe(53, d, 53);
        MulLe(53, d, d);
      }
      if d % 2 == 0 {
        DividesTransitive(n, d, 2);
      }
      if d == 51 {
        DividesTransitive(n, 51, 3);
      }
      assert n % d == 0;
    }
  }

  /** At 53 * 53 it fails. */
  lemma WrongAt2809()
    ensures ProbablePrime(2809) && !Prime(2809)
  {
    forall i | 3 <= i < DIVISOR_END && i % 2 == 1
      ensures 2809 % i != 0
    {
      if i < 19 {
      } else if i < 35 {
      }
    }
    assert 2809 % 53 == 0;
  }

  // ---------------------------------------------------------------- the search

  /** The product of the odd numbers from 3 to n. */
  ghost function OddProduct(n: nat): (p: nat)
  {
    if n < 3 then 1 else n * OddProduct(n - 2)
  }

  lemma {:induction false} Factor(n: nat, i: nat) returns (q: nat)
    requires 3 <= i <= n && i % 2 == 1 && n % 2 == 1
    ensures OddProduct(n) == q * i
    decreases n
  {
    if n == i {
      q := OddProduct(n - 2);
    } else {
      var q' := Factor(n - 2, i);
      q := n * q';
      assert n * (q' * i) == (n * q') * i;
    }
  }

  lemma {:induction false} ProductIsPositive(n: nat)
    ensures OddProduct(n) >= 1
  {
    if n >= 3 {
      ProductIsPositive(n - 2);
      MulLe(1, n, OddProduct(n - 2));
    }
  }

  /** There is an odd number, at least n, that passes the test: one more than a common multiple of all divisors tried. */
  lemma LaterCandidate(n: nat) returns (goal: nat)
    ensures goal >= n && goal % 2 == 1 && ProbablePrime(goal)
  {
    hide OddProduct;
    var product := OddProduct(49);
    var m := product * n;
    goal := 2 * m + 1;
    ProductIsPositive(49);
    MulLe(1, product, n);
    forall i | 3 <= i < DIVISOR_END && i % 2 == 1
      ensures goal % i != 0
    {
      var q := Factor(49, i);
      NextToMultiple(q, i, n);
    }
  }

  lemma NextToMultiple(q: nat, i: nat, n: nat)
    requires i > 1
    ensures (2 * ((q * i) * n) + 1) % i == 1
  {
    assert 2 * ((q * i) * n) == (2 * q * n) * i;
    ModUnique(2 * ((q * i) * n) + 1, i, 2 * q * n, 1);
  }

  /** The number of buckets that gives the ideal ratio, rounded down. */
  function Ideal(elements: nat, ratio: real): int
    requires ratio > 0.0
  {
    (elements as real / ratio).Floor
  }

  /** The smallest odd number from 5 and from the ideal one on that passes the test. */
  ghost predicate IsIdeal(n: nat, elements: nat, ratio: real)
    requires ratio > 0.0
  {
    && n % 2 == 1 && n >= 5 && n >= Ideal(elements, ratio) && ProbablePrime(n)
    && forall m :: 5 <= m < n && m % 2 == 1 && m >= Ideal(elements, ratio) ==> !ProbablePrime(m)
  }

  /** calculateIdealNumOfBuckets. */
  method IdealNumOfBuckets(numOfElements: nat, idealRatio: real) returns (n: nat)
    requires idealRatio > 0.0
    ensures IsIdeal(n, numOfElements, idealRatio)
  {
    hide ProbablePrime;
    var ideal := Ideal(numOfElements, idealRatio);
    if ideal < 5 {
      n := 5;
    } else if ideal % 2 == 0 {
      n := ideal + 1;
    } else {
      n := ideal;
    }
    ghost var start := n;
    ghost var goal := LaterCandidate(n);
    while true
      invariant n % 2 == 1 && start <= n <= goal
      invariant forall m :: start <= m < n && m % 2 == 1 ==> !ProbablePrime(m)
      decreases goal - n
    {
      var probable := IsProbablePrime(n);
      if probable {
        break;
      }
      n := n + 2;
    }
  }
}

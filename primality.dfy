/** The trial-division primality test `is_prime` with the 6k+-1 wheel. */
module Primality {
  import opened Word

  /** d is a positive divisor of n. */
  predicate Divides(d: nat, n: nat) {
    d >= 1 && n % d == 0
  }

  /** n is prime: at least 2 and without a divisor in [2, n - 1]. */
  predicate Prime(n: nat) {
    n >= 2 && forall d :: 2 <= d < n ==> !Divides(d, n)
  }

  /** n has no divisor d with 2 <= d < k. */
  predicate NoDivisorBelow(n: nat, k: nat) {
    forall d :: 2 <= d < k ==> !Divides(d, n)
  }

  /** is_prime: the test of the program, proved exact over the whole 64-bit range. */
  method IsPrime(n: u64) returns (r: bool)
    ensures r <==> Prime(n as nat)
  {
    ghost var m: nat := n as nat;
    if n <= 1 {
      return false;
    }
    if n <= 3 {
      SmallCases();
      return true;
    }
    if n % 2 == 0 || n % 3 == 0 {
      MultipleOfTwoOrThreeNotPrime(m);
      return false;
    }
    WheelStart(m);
    var i: u64 := 5;
    ghost var k: nat := 0;  // i = 6k + 5, so i is 5 modulo 6
    while i <= n / i
      invariant i as int == 6 * k + 5
      invariant NoDivisorBelow(m, 6 * k + 5)
      decreases n as int - i as int  // the guard keeps i + 2 below n
    {
      GuardBounds(m, 6 * k + 5);
      if n % i == 0 || n % (i + 2) == 0 {
        if n % i == 0 {
          DivisorNotPrime(m, 6 * k + 5);
        } else {
          DivisorNotPrime(m, 6 * k + 7);
        }
        return false;
      }
      WheelStep(m, k);
      i := i + 6;
      k := k + 1;
    }
    LoopExitMeansPrime(m, 6 * k + 5);
    return true;
  }

  /** Multiplying by a natural number keeps order. */
  lemma MulMonotone(a: nat, b: nat, c: nat)
    requires b <= c
    ensures a * b <= a * c
  {
  }

  /** A strict inequality between multiples of a carries to the factors. */
  lemma MulCancelLess(a: nat, b: nat, c: nat)
    requires a * b < a * c
    ensures b < c
  {
  }

  /** Every q with q * a <= n is at most n / a. */
  lemma QuotientMaximal(n: nat, a: nat, q: nat)
    requires a >= 1 && a * q <= n
    ensures q <= n / a
  {
    var m := n / a;
    assert n == a * m + n % a;
    assert a * q < a * (m + 1);
    MulCancelLess(a, q, m + 1);
  }

  /** The loop guard `i <= n / i` is exactly `i * i <= n`. */
  lemma GuardIsSquareBound(n: nat, i: nat)
    requires i >= 1
    ensures i <= n / i <==> i * i <= n
  {
    var q := n / i;
    assert n == i * q + n % i;
    if i <= q {
      MulMonotone(i, i, q);
    }
    if i * i <= n {
      QuotientMaximal(n, i, i);
    }
  }

  /** A number whose square is below b * b is below b. */
  lemma SquareBelow(a: nat, b: nat)
    requires a * a < b * b
    ensures a < b
  {
  }

  /** While the guard holds for an n below 2^64, i * i <= n, so i < 2^32:
      i + 2 and i + 6 stay below 2^64, and i + 2 is below n. */
  lemma GuardBounds(n: nat, i: nat)
    requires n <= ULLONG_MAX && i >= 5 && i <= n / i
    ensures i * i <= n && i < 0x1_0000_0000 && i + 6 <= ULLONG_MAX && i + 2 < n
  {
    GuardIsSquareBound(n, i);
    SquareBelow(i, 0x1_0000_0000);
    assert i * i >= 5 * i;
  }

  /** A larger candidate gives a bound n / i that is not larger: while i grows
      by 6 per round, the right-hand side of the guard never grows. This stands
      alone: IsPrime's termination measure is n - i, bounded by GuardBounds. */
  lemma QuotientAntitone(n: nat, a: nat, b: nat)
    requires 1 <= a <= b
    ensures n / b <= n / a
  {
    var q := n / b;
    assert n == b * q + n % b;
    MulMonotone(q, a, b);
    assert a * q <= b * q;
    QuotientMaximal(n, a, q);
  }

  /** A multiple of d leaves remainder 0. */
  lemma MultipleMod(d: nat, k: nat)
    requires d >= 1
    ensures (d * k) % d == 0
  {
    var c := d * k;
    var q := c / d;
    assert c == d * q + c % d;
    QuotientMaximal(c, d, k);
    MulMonotone(d, k, q);
    assert c % d == c - d * q;
  }

  /** d divides c whenever d divides some divisor m of c. */
  lemma DividesTransitive(d: nat, m: nat, c: nat)
    requires Divides(d, m) && Divides(m, c)
    ensures Divides(d, c)
  {
    var k := m / d;
    var l := c / m;
    assert m == d * k;
    assert c == m * l;
    assert c == d * (k * l);
    MultipleMod(d, k * l);
  }

  /** A candidate strictly between i = 6k + 5 and i + 6, other than i + 2,
      is a multiple of 2 or of 3. */
  lemma SkippedCandidate(k: nat, d: nat)
    requires 6 * k + 5 < d < 6 * k + 11 && d != 6 * k + 7
    ensures Divides(2, d) || Divides(3, d)
  {
    if d == 6 * k + 6 {
      MultipleMod(2, 3 * k + 3);
    } else if d == 6 * k + 8 {
      MultipleMod(2, 3 * k + 4);
    } else if d == 6 * k + 9 {
      MultipleMod(3, 2 * k + 3);
    } else {
      MultipleMod(2, 3 * k + 5);
    }
  }

  /** The candidates the wheel skips are multiples of 2 or 3, so for an n
      coprime to 6 the invariant "no divisor below i" carries from i = 6k + 5
      to i + 6 once i and i + 2 are found not to divide n. */
  lemma WheelStep(n: nat, k: nat)
    requires n % 2 != 0 && n % 3 != 0
    requires NoDivisorBelow(n, 6 * k + 5) && n % (6 * k + 5) != 0 && n % (6 * k + 7) != 0
    ensures NoDivisorBelow(n, 6 * k + 11)
  {
    forall d | 2 <= d < 6 * k + 11
      ensures !Divides(d, n)
    {
      if 6 * k + 5 < d && d != 6 * k + 7 && Divides(d, n) {
        SkippedCandidate(k, d);
        if Divides(2, d) {
          DividesTransitive(2, d, n);
        } else {
          DividesTransitive(3, d, n);
        }
      }
    }
  }

  /** The partner n / d of a divisor d >= i of n < i * i is a divisor of n
      in [2, i - 1]. */
  lemma PartnerDivisor(n: nat, d: nat, i: nat)
    requires 2 <= d < n && n % d == 0 && 1 <= i <= d && n < i * i
    ensures 2 <= n / d < i && n % (n / d) == 0
  {
    var e := n / d;
    assert n == d * e + n % d;
    assert n == d * e;
    MulCancelLess(d, 1, e);
    MulMonotone(i, i, d);
    assert d * e < d * i;
    MulCancelLess(d, e, i);
    MultipleMod(e, d);
    assert e * d == n;
  }

  /** When no divisor lies below i and i * i > n, n has no divisor at all:
      a divisor d >= i would have the partner n / d below i. */
  lemma NoDivisorUpToRootMeansPrime(n: nat, i: nat)
    requires n >= 2 && i >= 1 && n < i * i && NoDivisorBelow(n, i)
    ensures Prime(n)
  {
    forall d | 2 <= d < n
      ensures !Divides(d, n)
    {
      if d >= i && Divides(d, n) {
        PartnerDivisor(n, d, i);
        assert Divides(n / d, n);
      }
    }
  }

  /** Leaving the loop (the guard `i <= n / i` fails) with no divisor below i
      means n is prime. */
  lemma LoopExitMeansPrime(n: nat, i: nat)
    requires n >= 2 && i >= 1 && n / i < i && NoDivisorBelow(n, i)
    ensures Prime(n)
  {
    GuardIsSquareBound(n, i);
    NoDivisorUpToRootMeansPrime(n, i);
  }

  /** A divisor in [2, n - 1] witnesses that n is not prime. */
  lemma DivisorNotPrime(n: nat, d: nat)
    requires 2 <= d < n && n % d == 0
    ensures !Prime(n)
  {
    assert Divides(d, n);
  }

  /** Once 2 and 3 are excluded, no divisor lies below the first wheel candidate 5. */
  lemma WheelStart(n: nat)
    requires n % 2 != 0 && n % 3 != 0
    ensures NoDivisorBelow(n, 5)
  {
    if Divides(4, n) {
      DividesTransitive(2, 4, n);
    }
  }

  /** 0 and 1 are rejected, 2 and 3 accepted. */
  lemma SmallCases()
    ensures !Prime(0) && !Prime(1) && Prime(2) && Prime(3)
  {
    assert !Divides(2, 3);
  }

  /** A number above 3 divisible by 2 or by 3 is not prime. */
  lemma MultipleOfTwoOrThreeNotPrime(n: nat)
    requires n > 3 && (n % 2 == 0 || n % 3 == 0)
    ensures !Prime(n)
  {
    if n % 2 == 0 {
      DivisorNotPrime(n, 2);
    } else {
      DivisorNotPrime(n, 3);
    }
  }

  /** 17 is prime. */
  lemma SeventeenIsPrime()
    ensures Prime(17)
  {
    assert !Divides(2, 17) && !Divides(3, 17) && !Divides(4, 17);
    NoDivisorUpToRootMeansPrime(17, 5);
  }

  /** 97 is prime. */
  lemma NinetySevenIsPrime()
    ensures Prime(97)
  {
    assert !Divides(2, 97) && !Divides(3, 97) && !Divides(4, 97) && !Divides(5, 97);
    assert !Divides(6, 97) && !Divides(7, 97) && !Divides(8, 97) && !Divides(9, 97);
    NoDivisorUpToRootMeansPrime(97, 10);
  }

  /** The Carmichael number 561 = 3 * 11 * 17 is not prime: the test is exact. */
  lemma CarmichaelNotPrime()
    ensures !Prime(561)
  {
    DivisorNotPrime(561, 3);
  }

  /** ULLONG_MAX = 2^64 - 1 is odd but divisible by 3. */
  lemma MaxNotPrime()
    ensures !Prime(ULLONG_MAX)
  {
    DivisorNotPrime(ULLONG_MAX, 3);
  }
}

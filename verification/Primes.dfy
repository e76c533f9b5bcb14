/** The prime tables of the samples: a sieve, two trial divisions and a hybrid
    of sieve and trial division, over mathematical integers. */
module Primes {
  predicate Divides(d: int, n: int)
    requires d > 0
  {
    n % d == 0
  }

  predicate Prime(n: int) {
    n >= 2 && forall d | 2 <= d < n :: !Divides(d, n)
  }

  /** q is the smallest prime greater than p. */
  predicate NextPrime(p: int, q: int) {
    p < q && Prime(q) && forall m | p < m < q :: !Prime(m)
  }

  lemma NextPrimeUnique(p: int, q: int, r: int)
    requires NextPrime(p, q) && NextPrime(p, r)
    ensures q == r
  {
  }

  /** The documentation's answer for every negative number. */
  lemma TwoFollowsNegatives(p: int)
    requires p < 0
    ensures NextPrime(p, 2)
  {
  }

  // ---------------------------------------------------------------------
  // Divisors
  // ---------------------------------------------------------------------

  lemma Quotient(d: int, n: int)
    requires d > 0 && Divides(d, n)
    ensures n == d * (n / d)
  {
  }

  lemma Multiple(d: int, c: int)
    requires d > 0
    ensures Divides(d, d * c)
  {
    assert d * c == c * d + 0;
    DivisionUnique(d * c, d, c, 0);
  }

  lemma DivisionUnique(n: int, d: int, q: int, r: int)
    requires 0 <= r < d && n == q * d + r
    ensures n % d == r && n / d == q
  {
    var e := n / d - q;
    assert e * d == r - n % d;
    SmallMultiple(e, d);
  }

  lemma SmallMultiple(e: int, d: int)
    requires d > 0 && -d < e * d < d
    ensures e == 0
  {
  }

  lemma DividesTransitive(a: int, b: int, n: int)
    requires a > 0 && b > 0 && Divides(a, b) && Divides(b, n)
    ensures Divides(a, n)
  {
    Quotient(a, b);
    Quotient(b, n);
    assert n == a * ((b / a) * (n / b));
    Multiple(a, (b / a) * (n / b));
  }

  lemma DividesSuccessor(d: int, n: int)
    requires d >= 2 && Divides(d, n)
    ensures !Divides(d, n + 1)
  {
    Quotient(d, n);
    DivisionUnique(n + 1, d, n / d, 1);
  }

  /** Trial division may stop at the square root. */
  lemma PrimeIffNoSmallDivisor(n: int, bound: int)
    requires n >= 2 && bound >= 2 && bound * bound > n
    ensures Prime(n) <==> forall d | 2 <= d < bound && d < n :: !Divides(d, n)
  {
    if forall d | 2 <= d < bound && d < n :: !Divides(d, n) {
      forall d | 2 <= d < n ensures !Divides(d, n) {
        if d >= bound && Divides(d, n) {
          var c := n / d;
          Quotient(d, n);
          Cofactor(n, d, c, bound);
          MultipleOfCofactor(n, d, c);
        }
      }
    }
  }

  lemma Cofactor(n: int, d: int, c: int, bound: int)
    requires n >= 2 && 2 <= bound <= d < n && bound * bound > n && n == d * c
    ensures 2 <= c < bound
  {
    if c >= bound {
      ProductAtLeast(d, c, bound);
    } else if c <= 0 {
      ProductAtMostZero(d, c);
    }
  }

  lemma ProductAtLeast(d: int, c: int, bound: int)
    requires d >= bound >= 0 && c >= bound
    ensures d * c >= bound * bound
  {
    ProductMonotone(bound, d, c);
    ProductMonotone(bound, c, bound);
  }

  lemma ProductMonotone(a: int, b: int, c: int)
    requires a <= b && c >= 0
    ensures a * c <= b * c
  {
    NonnegativeProduct(b - a, c);
    assert (b - a) * c == b * c - a * c;
  }

  lemma NonnegativeProduct(x: int, y: int)
    requires x >= 0 && y >= 0
    ensures x * y >= 0
  {
  }

  lemma ProductAtMostZero(d: int, c: int)
    requires d >= 0 >= c
    ensures d * c <= 0
  {
  }

  lemma MultipleOfCofactor(n: int, d: int, c: int)
    requires c > 0 && n == d * c
    ensures Divides(c, n)
  {
    assert n == c * d;
    Multiple(c, d);
  }

  // ---------------------------------------------------------------------
  // Euclid: there is a prime above every number
  // ---------------------------------------------------------------------

  function Factorial(n: nat): (f: int)
    ensures f >= 1
  {
    if n == 0 then 1 else n * Factorial(n - 1)
  }

  lemma {:induction false} DividesFactorial(d: int, n: nat)
    requires 1 <= d <= n
    ensures Divides(d, Factorial(n))
  {
    if d == n {
      Multiple(n, Factorial(n - 1));
    } else {
      DividesFactorial(d, n - 1);
      var f := Factorial(n - 1);
      Multiple(f, n);
      assert Factorial(n) == f * n;
      DividesTransitive(d, f, Factorial(n));
    }
  }

  lemma {:induction false} PrimeDivisor(n: int, d: int) returns (q: int)
    requires n >= 2 && 2 <= d <= n && Divides(d, n)
    ensures Prime(q) && Divides(q, n)
    decreases d
  {
    if Prime(d) {
      return d;
    }
    var e :| 2 <= e < d && Divides(e, d);
    DividesTransitive(e, d, n);
    q := PrimeDivisor(n, e);
  }

  lemma PrimeAbove(p: nat) returns (q: int)
    ensures q > p && Prime(q)
  {
    var n := Factorial(p) + 1;
    Multiple(n, 1);
    q := PrimeDivisor(n, n);
    if q <= p {
      DividesFactorial(q, p);
      DividesSuccessor(q, Factorial(p));
    }
  }

  /** Every natural number has a next prime. */
  lemma {:induction false} NextPrimeExists(p: nat) returns (q: int)
    ensures NextPrime(p, q)
  {
    var r := PrimeAbove(p);
    q := p + 1;
    while !Prime(q)
      invariant p < q <= r
      invariant forall m | p < m < q :: !Prime(m)
      decreases r - q
    {
      q := q + 1;
    }
  }

  // ---------------------------------------------------------------------
  // Trial division by odd numbers
  // ---------------------------------------------------------------------

  lemma EvenDoesNotDivideOdd(d: int, n: int)
    requires d >= 2 && d % 2 == 0 && n % 2 == 1
    ensures !Divides(d, n)
  {
    if Divides(d, n) {
      DividesTransitive(2, d, n);
    }
  }

  method IsPrime(n: int) returns (prime: bool)
    ensures prime <==> Prime(n)
  {
    if n <= 1 {
      return false;
    }
    if n % 2 == 0 {
      assert Divides(2, n);
      return n == 2;
    }
    EvenDoesNotDivideOdd(2, n);
    var i := 3;
    while true
      invariant i >= 3 && i % 2 == 1
      invariant forall d | 2 <= d < i && d < n :: !Divides(d, n)
      invariant i <= n + 2
      decreases n + 2 - i
    {
      if i > n / i {
        SquareExceeds(n, i);
        break;
      }
      AtMostSquareRoot(n, i);
      if n % i == 0 {
        assert Divides(i, n);
        return false;
      }
      EvenDoesNotDivideOdd(i + 1, n);
      i := i + 2;
    }
    PrimeIffNoSmallDivisor(n, i);
    return true;
  }

  lemma SquareExceeds(n: int, i: int)
    requires n >= 0 && i > 0 && i > n / i
    ensures i * i > n
  {
    var q := n / i;
    assert q * i + n % i == n;
    ProductMonotone(q + 1, i, i);
    assert (q + 1) * i == q * i + i;
  }

  lemma AtMostSquareRoot(n: int, i: int)
    requires i >= 2 && i <= n / i
    ensures i < n
  {
    var q := n / i;
    assert q * i + n % i == n;
    ProductMonotone(2, q, i);
  }

  // ---------------------------------------------------------------------
  // The tables
  // ---------------------------------------------------------------------

  class OnTheFlyPrimeTable {
    constructor () {
    }

    method IsPrime(n: int) returns (prime: bool)
      ensures prime <==> Prime(n)
    {
      if n <= 1 {
        return false;
      }
      var i := 2;
      while i * i <= n
        invariant i >= 2
        invariant forall d | 2 <= d < i && d < n :: !Divides(d, n)
        decreases n - i
      {
        assert i < i * i;
        if n % i == 0 {
          assert Divides(i, n);
          return false;
        }
        i := i + 1;
      }
      PrimeIffNoSmallDivisor(n, i);
      return true;
    }

    // For a negative p the loop does not run.
    method GetNextPrime(p: int) returns (next: int)
      ensures if p >= 0 then NextPrime(p, next) else next == -1
    {
      ghost var above := if p >= 0 then APrimeAbove(p) else 0;
      var n := p + 1;
      while n > 0
        invariant p >= 0 ==> p < n <= above && Prime(above)
        invariant p < 0 ==> n == p + 1
        invariant forall m | p < m < n :: !Prime(m)
        decreases above - n
      {
        var prime := IsPrime(n);
        if prime {
          return n;
        }
        n := n + 1;
      }
      return -1;
    }
  }

  ghost function APrimeAbove(p: nat): (q: int)
    ensures q > p && Prime(q)
  {
    assert exists q :: q > p && Prime(q) by {
      var q := PrimeAbove(p);
      assert q > p && Prime(q);
    }
    var q :| q > p && Prime(q);
    q
  }

  /** No number from 2 up to, but not including, bound divides n properly. */
  predicate Sieved(n: int, bound: int) {
    n >= 2 && forall d | 2 <= d < bound && d < n :: !Divides(d, n)
  }

  class PreCalculatedPrimeTable {
    const isPrimeSize: int
    const isPrime: array<bool>

    ghost const max: int

    ghost predicate Valid()
      reads isPrime
    {
      && max >= 1 && isPrimeSize == max + 1 && isPrime.Length == isPrimeSize
      && forall n | 0 <= n <= max :: isPrime[n] <==> Prime(n)
    }

    constructor (max: int)
      requires max >= 1
      ensures Valid() && this.max == max && fresh(isPrime)
    {
      isPrimeSize := max + 1;
      isPrime := new bool[max + 1];
      this.max := max;
      new;
      CalculatePrimesUpTo(isPrime, max);
    }

    static method CalculatePrimesUpTo(isPrime: array<bool>, max: int)
      requires max >= 1 && isPrime.Length == max + 1
      modifies isPrime
      ensures forall n | 0 <= n <= max :: isPrime[n] <==> Prime(n)
    {
      for k := 0 to isPrime.Length
        invariant forall n | 0 <= n < k :: isPrime[n]
      {
        isPrime[k] := true;
      }
      isPrime[0], isPrime[1] := false, false;
      var i := 2;
      while i <= max
        invariant 2 <= i <= max + 1
        invariant forall n | 0 <= n <= max :: isPrime[n] <==> Sieved(n, i)
      {
        if isPrime[i] {
          CrossOutMultiples(isPrime, max, i);
        }
        forall n | 0 <= n <= max ensures isPrime[n] <==> Sieved(n, i + 1) {
          SievedStep(n, i);
        }
        i := i + 1;
      }
    }

    static method CrossOutMultiples(isPrime: array<bool>, max: int, i: int)
      requires max >= 1 && isPrime.Length == max + 1 && 2 <= i <= max
      modifies isPrime
      ensures forall n | 0 <= n <= max :: isPrime[n] <==> old(isPrime[n]) && !(i < n && Divides(i, n))
    {
      var j := 2 * i;
      ghost var c := 2;
      while j <= max
        invariant c >= 2 && j == i * c
        invariant forall n | 0 <= n <= max :: isPrime[n] <==> old(isPrime[n]) && !(i < n < j && Divides(i, n))
        decreases max - j
      {
        isPrime[j] := false;
        Multiple(i, c);
        forall n | j < n < j + i ensures !Divides(i, n) {
          DivisionUnique(n, i, c, n - j);
        }
        j := j + i;
        c := c + 1;
      }
    }

    method IsPrime(n: int) returns (prime: bool)
      requires Valid()
      ensures prime <==> n <= max && Prime(n)
    {
      prime := 0 <= n && n < isPrimeSize && isPrime[n];
    }

    /** -1 stands for a next prime beyond the table. */
    method GetNextPrime(p: int) returns (next: int)
      requires Valid() && p >= -1
      ensures if exists q :: q <= max && NextPrime(p, q) then next <= max && NextPrime(p, next) else next == -1
    {
      var n := p + 1;
      while n < isPrimeSize
        invariant p < n
        invariant forall m | p < m < n :: !Prime(m)
      {
        if isPrime[n] {
          assert NextPrime(p, n);
          return n;
        }
        n := n + 1;
      }
      return -1;
    }
  }

  // A number that is already crossed out has no multiples left to cross out.
  lemma SievedStep(n: int, i: int)
    requires i >= 2
    ensures Sieved(n, i + 1) <==> Sieved(n, i) && !(Sieved(i, i) && i < n && Divides(i, n))
  {
    if Sieved(n, i) && !Sieved(i, i) && i < n && Divides(i, n) {
      var d :| 2 <= d < i && Divides(d, i);
      DividesTransitive(d, i, n);
    }
  }

  class HybridPrimeTable {
    const onTheFly: OnTheFlyPrimeTable
    const precalc: PreCalculatedPrimeTable?
    const maxPrecalculated: int

    ghost predicate Valid()
      reads precalc, if precalc == null then {} else {precalc.isPrime}
    {
      precalc != null ==> precalc.Valid() && precalc.max == maxPrecalculated
    }

    constructor (forceOnTheFly: bool, maxPrecalculated: int)
      requires forceOnTheFly || maxPrecalculated >= 1
      ensures Valid() && this.maxPrecalculated == maxPrecalculated
      ensures precalc == null <==> forceOnTheFly
    {
      onTheFly := new OnTheFlyPrimeTable();
      this.maxPrecalculated := maxPrecalculated;
      if forceOnTheFly {
        precalc := null;
      } else {
        var table := new PreCalculatedPrimeTable(maxPrecalculated);
        precalc := table;
      }
    }

    method IsPrime(n: int) returns (prime: bool)
      requires Valid()
      ensures prime <==> Prime(n)
    {
      if precalc != null && n < maxPrecalculated {
        prime := precalc.IsPrime(n);
      } else {
        prime := onTheFly.IsPrime(n);
      }
    }

    /** At p == -1 the answer depends on whether there is a table. */
    method GetNextPrime(p: int) returns (next: int)
      requires Valid() && (precalc != null ==> p >= -1)
      ensures p >= 0 ==> NextPrime(p, next)
      ensures p < 0 ==> next == if precalc != null && maxPrecalculated >= 2 then 2 else -1
    {
      next := -1;
      if precalc != null && p < maxPrecalculated {
        next := precalc.GetNextPrime(p);
        assert Prime(2) && NextPrime(-1, 2);
        if next != -1 && p == -1 {
          NextPrimeUnique(-1, next, 2);
        }
      }
      if next == -1 {
        next := onTheFly.GetNextPrime(p);
      }
    }
  }
}

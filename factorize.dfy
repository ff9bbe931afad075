/** `prime_factorize`: trial division producing a prime -> exponent mapping. */
module Factorize {
  import opened NumberTheory
  import opened PrimeExponents

  /** The least divisor of n that is at least d. */
  function LeastDivisorFrom(n: int, d: int): (r: int)
    requires 2 <= d <= n
    ensures d <= r <= n && Divides(r, n) && NoDivisorIn(n, d, r)
    decreases n - d
  {
    if n % d == 0 then d else LeastDivisorFrom(n, d + 1)
  }

  /** The least divisor above 1 of a number has no divisor above 1 itself. */
  lemma {:induction false} LeastDivisorIsPrime(n: int, p: int)
    requires 2 <= p && Divides(p, n) && NoDivisorIn(n, 2, p)
    ensures Prime(p)
  {
    forall e | 1 < e < p
      ensures !Divides(e, p)
    {
      if Divides(e, p) {
        DividesTrans(e, p, n);
      }
    }
  }

  /** The smallest prime factor of n. */
  function SmallestFactor(n: int): (p: int)
    requires n >= 2
    ensures Prime(p) && Divides(p, n) && NoDivisorIn(n, 2, p)
  {
    var p := LeastDivisorFrom(n, 2);
    LeastDivisorIsPrime(n, p);
    p
  }

  /** A divisor of n that no smaller number above 1 divides n is its smallest factor. */
  lemma {:induction false} SmallestFactorIs(n: int, i: int)
    requires n >= 2 && i >= 2 && Divides(i, n) && NoDivisorIn(n, 2, i)
    ensures SmallestFactor(n) == i
  {
  }

  /** Reference definition: the prime factorization of n >= 1, obtained by
      repeatedly removing the smallest prime factor. */
  function Factorization(n: int): Exponents
    requires n >= 1
    decreases n
  {
    if n == 1 then map[]
    else
      var p := SmallestFactor(n);
      DividesQuotient(p, n);
      MulMonotone(p, 2, n / p, n / p);
      AddTo(Factorization(n / p), p, 1)
  }

  /** The reference factorization has prime keys, positive exponents and
      multiplies out to n. */
  lemma {:induction false} FactorizationCorrect(n: int)
    requires n >= 1
    ensures IsFactorization(Factorization(n))
    ensures Value(Factorization(n)) == n
    decreases n
  {
    if n > 1 {
      var p := SmallestFactor(n);
      DividesQuotient(p, n);
      MulMonotone(p, 2, n / p, n / p);
      FactorizationCorrect(n / p);
      ValueAddTo(Factorization(n / p), p, 1);
    }
  }

  /** A prime is its own factorization with exponent 1. */
  lemma {:induction false} FactorizationOfPrime(p: int)
    requires Prime(p)
    ensures Factorization(p) == map[p := 1]
  {
    DividesSelf(p);
    SmallestFactorIs(p, p);
    assert p / p == 1;
  }

  /** Uniqueness of factorization: any prime -> exponent mapping with positive
      exponents is the factorization of the number it stands for. */
  lemma {:induction false} FactorizationUnique(m: Exponents)
    requires IsFactorization(m)
    ensures Value(m) >= 1 && m == Factorization(Value(m))
    decreases Value(m)
  {
    var n := Value(m);
    ValuePositive(m);
    ValueAboveOne(m);
    if n > 1 {
      var p := SmallestFactor(n);
      PrimeDividesValue(m, p);
      var rest := Decrement(m, p);
      ValueAddTo(rest, p, 1);
      assert Pow(p, 1) == p;
      ValuePositive(rest);
      DividesByWitness(p, n, Value(rest));
      MulMonotone(p, 2, Value(rest), Value(rest));
      FactorizationUnique(rest);
      FactorizationPeel(n, p);
    }
  }

  /** Factorizations of n and of n / i differ in the exponent of i by one,
      when i is the smallest factor of n. */
  lemma {:induction false} FactorizationPeel(n: int, i: int)
    requires n >= 2 && i >= 2 && Divides(i, n) && NoDivisorIn(n, 2, i)
    ensures n / i >= 1
    ensures Factorization(n) == AddTo(Factorization(n / i), i, 1)
  {
    SmallestFactorIs(n, i);
    DividesQuotient(i, n);
  }

  /** Dividing out a factor keeps the absence of small divisors. */
  lemma {:induction false} NoDivisorQuotient(n: int, i: int, lo: int, hi: int)
    requires n >= 1 && Divides(i, n) && NoDivisorIn(n, lo, hi)
    ensures NoDivisorIn(n / i, lo, hi)
  {
    DividesQuotient(i, n);
    DividesByWitness(n / i, n, i);
    forall d | lo <= d < hi
      ensures !Divides(d, n / i)
    {
      if Divides(d, n / i) {
        DividesTrans(d, n / i, n);
      }
    }
  }

  /** After i is exhausted, an odd n has no divisor below i + 2. */
  lemma {:induction false} NoDivisorSkipEven(n: int, i: int)
    requires i >= 3 && i % 2 == 1 && NoDivisorIn(n, 2, i) && !Divides(i, n)
    ensures NoDivisorIn(n, 2, i + 2)
  {
    DividesByWitness(2, i + 1, (i + 1) / 2);
    if Divides(i + 1, n) {
      DividesTrans(2, i + 1, n);
    }
  }

  /** Moving one unit of exponent from one summand to the other. */
  lemma {:induction false} SumShift(a: Exponents, b: Exponents, p: int)
    ensures Sum(AddTo(a, p, 1), b) == Sum(a, AddTo(b, p, 1))
  {
    MapsAgree(Sum(AddTo(a, p, 1), b), Sum(a, AddTo(b, p, 1)));
  }

  ghost predicate Completes(n0: int, factors: Exponents, n: int)
  {
    n0 >= 1 && n >= 1 && Sum(factors, Factorization(n)) == Factorization(n0)
  }

  /** One division step of the factorizer keeps its invariant: the accumulated
      map plus the factorization of what is left is the factorization of n0. */
  lemma {:induction false} DivideOut(n0: int, factors: Exponents, n: int, i: int)
    requires n0 >= 1 && n >= 2 && i >= 2 && Divides(i, n) && NoDivisorIn(n, 2, i)
    requires Completes(n0, factors, n)
    ensures 1 <= n / i < n
    ensures Completes(n0, AddTo(factors, i, 1), n / i)
  {
    FactorizationPeel(n, i);
    SumShift(factors, Factorization(n / i), i);
    DividesQuotient(i, n);
    MulMonotone(i, 2, n / i, n / i);
  }

  /** The map invariant implies the product invariant: the original number is the
      value of the accumulated map times what is left. */
  lemma {:induction false} ProductInvariant(n0: int, factors: Exponents, n: int)
    requires n0 >= 1 && n >= 1
    requires Sum(factors, Factorization(n)) == Factorization(n0)
    ensures Value(factors) * n == n0
  {
    ValueSum(factors, Factorization(n));
    FactorizationCorrect(n);
    FactorizationCorrect(n0);
  }

  /** When trial division stops, what is left is 1 or a prime, which completes the map. */
  lemma {:induction false} FinishFactorization(n0: int, factors: Exponents, n: int, i: int)
    requires n0 >= 1 && n >= 1 && i >= 2 && i * i > n && NoDivisorIn(n, 2, i)
    requires Completes(n0, factors, n)
    ensures (if n > 1 then AddTo(factors, n, 1) else factors) == Factorization(n0)
  {
    if n > 1 {
      PrimeBySquareBound(n, i);
      FactorizationOfPrime(n);
      assert Sum(factors, map[n := 1]) == AddTo(factors, n, 1);
    } else {
      assert Sum(factors, map[]) == factors;
    }
  }

  /** For a negative n only factors of 2 are ever stripped: the accumulated
      power of 2 times what is left is n0. */
  ghost predicate StripsTwos(n0: int, factors: Exponents, n: int)
  {
    && n0 < 0 && n < 0 && factors.Keys <= {2} && Value(factors) * n == n0
    && (2 in factors ==> factors[2] >= 1)
  }

  /** Dividing a negative even n by 2 keeps StripsTwos. */
  lemma {:induction false} StripTwo(n0: int, factors: Exponents, n: int)
    requires StripsTwos(n0, factors, n) && n % 2 == 0
    ensures StripsTwos(n0, AddTo(factors, 2, 1), n / 2) && Abs(n / 2) < Abs(n)
  {
    ValueAddTo(factors, 2, 1);
    assert Pow(2, 1) == 2;
    MulCommutes(2, Value(factors), n / 2);
  }

  /** An odd negative remainder makes Value(factors) the largest power of 2
      dividing -n0. */
  lemma OddRemainder(n0: int, factors: Exponents, n: int)
    requires StripsTwos(n0, factors, n) && n % 2 == 1
    ensures Divides(Value(factors), -n0) && (-n0 / Value(factors)) % 2 == 1
  {
    ValuePositive(factors);
    assert -n0 == Value(factors) * -n;
    DividesByWitness(Value(factors), -n0, -n);
  }

  /** Models `prime_factorize(n)` (main.py:77-91). For n = 0 the source never
      returns (0 is divisible by 2 forever). */
  method PrimeFactorize(n0: int) returns (factors: Exponents)
    requires n0 != 0
    ensures n0 >= 1 ==> factors == Factorization(n0)
    ensures n0 >= 1 ==> IsFactorization(factors) && Value(factors) == n0
    ensures n0 == 1 ==> factors == map[]
    ensures n0 < 0 ==> factors.Keys <= {2} && forall p :: p in factors ==> factors[p] >= 1
    ensures n0 < 0 ==> Divides(Value(factors), -n0) && (-n0 / Value(factors)) % 2 == 1
  {
    factors := map[];
    var n := n0;
    while n % 2 == 0
      invariant n0 >= 1 ==> n >= 1 && Completes(n0, factors, n)
      invariant n0 < 0 ==> StripsTwos(n0, factors, n)
      decreases Abs(n)
    {
      if n0 >= 1 {
        DivideOut(n0, factors, n, 2);
      } else {
        StripTwo(n0, factors, n);
      }
      factors := AddTo(factors, 2, 1);
      n := n / 2;
    }
    ghost var twos := factors;
    if n0 < 0 {
      OddRemainder(n0, factors, n);
    }
    var i := 3;
    while i * i <= n
      invariant n0 >= 1 ==> n >= 1 && NoDivisorIn(n, 2, i) && Completes(n0, factors, n)
      invariant n0 < 0 ==> n < 0 && factors == twos
      invariant i >= 3 && i % 2 == 1
      decreases n - i
    {
      MulMonotone(i, 1, i, i);
      assert n0 >= 1;
      ghost var before := n;
      while n % i == 0
        invariant 1 <= n <= before && NoDivisorIn(n, 2, i)
        invariant Completes(n0, factors, n)
        decreases n
      {
        DivideOut(n0, factors, n, i);
        NoDivisorQuotient(n, i, 2, i);
        factors := AddTo(factors, i, 1);
        n := n / i;
      }
      NoDivisorSkipEven(n, i);
      i := i + 2;
    }
    if n0 >= 1 {
      FinishFactorization(n0, factors, n, i);
      FactorizationCorrect(n0);
    }
    if n > 1 {
      factors := AddTo(factors, n, 1);
    }
  }
}

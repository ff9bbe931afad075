/** `is_prime`: trial division on the 6k +/- 1 wheel up to the square root. */
module Primality {
  import opened NumberTheory

  /** One turn of the wheel: once 2, 3, i and i + 2 are known not to divide n,
      no number below i + 6 does (the other four candidates are multiples of 2 or 3). */
  lemma WheelStep(n: int, i: int)
    requires i >= 5 && i % 6 == 5 && NoDivisorIn(n, 2, i)
    requires !Divides(2, n) && !Divides(3, n) && !Divides(i, n) && !Divides(i + 2, n)
    ensures NoDivisorIn(n, 2, i + 6)
  {
    forall d | i < d < i + 6 && d != i + 2
      ensures !Divides(d, n)
    {
      var f := if d == i + 4 then 3 else 2;
      DividesByWitness(f, d, d / f);
      if Divides(d, n) {
        DividesTrans(f, d, n);
      }
    }
  }

  /** A divisor found strictly between 1 and n refutes primality. */
  lemma NotPrimeByDivisor(n: int, d: int)
    requires 1 < d < n && Divides(d, n)
    ensures !Prime(n)
  {
  }

  /** Models `is_prime(n)` (main.py:61-74). */
  method IsPrime(n: int) returns (result: bool)
    ensures result <==> Prime(n)
  {
    if n <= 1 {
      return false;
    }
    if n <= 3 {
      return true;
    }
    if n % 2 == 0 || n % 3 == 0 {
      NotPrimeByDivisor(n, if n % 2 == 0 then 2 else 3);
      return false;
    }
    var i := 5;
    while i * i <= n
      invariant i >= 5 && i % 6 == 5
      invariant NoDivisorIn(n, 2, i)
      decreases n - i
    {
      MulMonotone(i, 5, i, i);
      if n % i == 0 || n % (i + 2) == 0 {
        NotPrimeByDivisor(n, if n % i == 0 then i else i + 2);
        return false;
      }
      WheelStep(n, i);
      i := i + 6;
    }
    PrimeBySquareBound(n, i);
    return true;
  }
}

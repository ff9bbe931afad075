/** Integer facts shared by the whole model: powers, divisibility, primality, gcd. */
module NumberTheory {

  /** b raised to the e-th power (Python's `b ** e` for e >= 0). */
  function Pow(b: int, e: nat): int
  {
    if e == 0 then 1 else b * Pow(b, e - 1)
  }

  /** d is a positive divisor of n (Python's `n % d == 0` for d > 0). */
  predicate Divides(d: int, n: int)
  {
    d > 0 && n % d == 0
  }

  /** n is prime: greater than 1 and without a divisor strictly between 1 and n. */
  ghost predicate Prime(n: int)
  {
    n > 1 && forall d :: 1 < d < n ==> !Divides(d, n)
  }

  /** n has no divisor d with lo <= d < hi. */
  ghost predicate NoDivisorIn(n: int, lo: int, hi: int)
  {
    forall d :: lo <= d < hi ==> !Divides(d, n)
  }

  /** Every entry of s is positive. */
  ghost predicate AllPositive(s: seq<int>)
  {
    forall i :: 0 <= i < |s| ==> s[i] >= 1
  }

  function Abs(x: int): nat
  {
    if x < 0 then -x else x
  }

  /** Euclid's algorithm on natural numbers. */
  function Gcd(x: nat, y: nat): nat
    decreases y
  {
    if y == 0 then x else Gcd(y, x % y)
  }

  /** Python's `math.gcd`: the gcd of the absolute values. */
  function MathGcd(x: int, y: int): nat
  {
    Gcd(Abs(x), Abs(y))
  }

  // ---------------------------------------------------------------------
  // Powers

  lemma {:induction false} PowAdd(b: int, e1: nat, e2: nat)
    ensures Pow(b, e1 + e2) == Pow(b, e1) * Pow(b, e2)
  {
    if e1 > 0 {
      PowAdd(b, e1 - 1, e2);
      assert Pow(b, e1 + e2) == b * Pow(b, e1 - 1 + e2);
    }
  }

  lemma {:induction false} PowPositive(b: int, e: nat)
    requires b > 0
    ensures Pow(b, e) > 0
  {
    if e > 0 {
      PowPositive(b, e - 1);
    }
  }

  /** A power of b > 1 with a positive exponent is at least b. */
  lemma {:induction false} PowAtLeastBase(b: int, e: nat)
    requires b > 1 && e > 0
    ensures Pow(b, e) >= b
  {
    if e > 1 {
      PowAtLeastBase(b, e - 1);
      assert Pow(b, e) == b * Pow(b, e - 1);
    }
  }

  // ---------------------------------------------------------------------
  // Divisibility

  /** Signs of products with a positive factor. */
  lemma MulSign(d: int, m: int)
    requires d > 0
    ensures m >= 1 ==> d * m >= d
    ensures m <= -1 ==> d * m <= -d
  {
  }

  /** Products of non-negative numbers are monotone in both factors. */
  lemma MulMonotone(a: int, b: int, c: int, e: int)
    ensures 0 <= b <= a && 0 <= e <= c ==> b * e <= a * c
  {
  }

  lemma DividesByWitness(d: int, n: int, k: int)
    requires d > 0 && n == d * k
    ensures Divides(d, n) && n / d == k
  {
    var q, r := n / d, n % d;
    assert d * (k - q) == r;
    MulSign(d, k - q);
  }

  lemma DividesQuotient(d: int, n: int)
    requires Divides(d, n)
    ensures n == d * (n / d)
  {
  }

  lemma DividesTrans(a: int, b: int, c: int)
    requires Divides(a, b) && Divides(b, c)
    ensures Divides(a, c)
  {
    var j, k := b / a, c / b;
    assert c == a * (j * k) by {
      assert b == a * j;
      assert c == b * k;
    }
    DividesByWitness(a, c, j * k);
  }

  lemma DividesMul(d: int, n: int, m: int)
    requires Divides(d, n)
    ensures Divides(d, n * m)
  {
    var k := n / d;
    assert n * m == d * (k * m);
    DividesByWitness(d, n * m, k * m);
  }

  lemma DividesSum(d: int, x: int, y: int)
    requires Divides(d, x) && Divides(d, y)
    ensures Divides(d, x + y)
  {
    var j, k := x / d, y / d;
    assert x + y == d * (j + k);
    DividesByWitness(d, x + y, j + k);
  }

  lemma DividesSelf(d: int)
    requires d > 0
    ensures Divides(d, d) && Divides(1, d)
  {
    DividesByWitness(d, d, 1);
    DividesByWitness(1, d, d);
  }

  /** A positive multiple of d is at least d. */
  lemma DivisorBound(d: int, n: int)
    requires Divides(d, n) && n > 0
    ensures d <= n
  {
    var k := n / d;
    assert n == d * k;
    MulSign(d, k);
  }

  /** A number below the modulus is its own remainder. */
  lemma ModSmall(x: int, n: int)
    requires 0 <= x < n
    ensures x % n == x
  {
  }

  /** The search bound `i * i > n` of trial division: a divisor at or above
      the bound has a partner divisor below it. */
  lemma SmallPartner(d: int, n: int, i: int)
    requires Divides(d, n) && 1 < n && d < n && i > 0 && i * i > n && d >= i
    ensures 1 < n / d < i && Divides(n / d, n)
  {
    var q := n / d;
    assert n == d * q;
    MulSign(d, q);
    MulSign(d, q - 1);
    MulMonotone(d, i, q, i);
    DividesByWitness(q, n, d);
  }

  /** Trial division up to the square root decides primality. */
  lemma PrimeBySquareBound(n: int, i: int)
    requires n > 1 && i > 0 && i * i > n && NoDivisorIn(n, 2, i)
    ensures Prime(n)
  {
    forall d | 1 < d < n
      ensures !Divides(d, n)
    {
      if Divides(d, n) && d >= i {
        SmallPartner(d, n, i);
      }
    }
  }

  // ---------------------------------------------------------------------
  // Greatest common divisor and Euclid's lemma

  lemma {:induction false} GcdDivides(x: nat, y: nat)
    requires x > 0 || y > 0
    ensures Gcd(x, y) > 0 && Divides(Gcd(x, y), x) && Divides(Gcd(x, y), y)
    decreases y
  {
    if y == 0 {
      DividesSelf(x);
      assert Divides(x, 0);
    } else {
      var g := Gcd(y, x % y);
      GcdDivides(y, x % y);
      assert x == y * (x / y) + x % y;
      DividesMul(g, y, x / y);
      DividesSum(g, y * (x / y), x % y);
    }
  }

  /** Bezout coefficients computed by the extended Euclidean algorithm. */
  function ExtGcd(x: nat, y: nat): (st: (int, int))
    decreases y
    ensures st.0 * x + st.1 * y == Gcd(x, y)
  {
    if y == 0 then (1, 0)
    else
      var st' := ExtGcd(y, x % y);
      var q := x / y;
      BezoutStep(x, y, q, x % y, st'.0, st'.1);
      (st'.1, st'.0 - q * st'.1)
  }

  /** One step of the extended Euclidean algorithm: coefficients for (y, x % y)
      give coefficients for (x, y). */
  lemma BezoutStep(x: int, y: int, q: int, rem: int, s: int, t: int)
    requires x == q * y + rem
    ensures t * x + (s - q * t) * y == s * y + t * rem
  {
    assert t * x == t * (q * y) + t * rem;
    assert (s - q * t) * y == s * y - (q * t) * y;
    MulAssoc(t, q, y);
    MulAssoc(q, t, y);
  }

  /** A prime that does not divide x is coprime with it. */
  lemma PrimeCoprime(p: int, x: nat)
    requires Prime(p) && !Divides(p, x)
    ensures Gcd(x, p) == 1
  {
    var g := Gcd(x, p);
    GcdDivides(x, p);
    DivisorBound(g, p);
  }

  lemma MulAssoc(x: int, y: int, z: int)
    ensures (x * y) * z == x * (y * z)
  {
  }

  lemma DividesAbs(d: int, x: int)
    requires Divides(d, Abs(x))
    ensures Divides(d, x)
  {
    if x < 0 {
      var k := Abs(x) / d;
      assert x == d * -k;
      DividesByWitness(d, x, -k);
    }
  }

  lemma SignedMultiple(u: int, v: int, n: int, w: int)
    requires u * v == n * w
    ensures Abs(u) * v == n * (if u < 0 then -w else w)
  {
  }

  lemma BezoutScale(s: int, au: int, t: int, n: int, v: int)
    requires s * au + t * n == 1
    ensures v == s * (au * v) + n * (t * v)
  {
    assert (s * au + t * n) * v == s * (au * v) + n * (t * v);
  }

  lemma FactorOut(s: int, n: int, sw: int, tv: int)
    ensures s * (n * sw) + n * tv == n * (s * sw + tv)
  {
    MulAssoc(s, n, sw);
    MulAssoc(n, s, sw);
  }

  /** Gauss's lemma: a modulus coprime with u that divides u * v divides v. */
  lemma Gauss(n: int, u: int, v: int)
    requires n >= 1 && Gcd(Abs(u), n) == 1 && Divides(n, u * v)
    ensures Divides(n, v)
  {
    var au := Abs(u);
    var st := ExtGcd(au, n);
    var s, t := st.0, st.1;
    var w := (u * v) / n;
    DividesQuotient(n, u * v);
    var sw := if u < 0 then -w else w;
    SignedMultiple(u, v, n, w);
    BezoutScale(s, au, t, n, v);
    FactorOut(s, n, sw, t * v);
    DividesByWitness(n, v, s * sw + t * v);
  }

  /** Euclid's lemma: a prime dividing a product divides one of the factors. */
  lemma EuclidLemma(p: int, x: nat, y: nat)
    requires Prime(p) && Divides(p, x * y)
    ensures Divides(p, x) || Divides(p, y)
  {
    if !Divides(p, x) {
      PrimeCoprime(p, x);
      Gauss(p, x, y);
    }
  }

  /** A prime dividing a power of a number divides that number. */
  lemma {:induction false} EuclidPow(p: int, x: nat, e: nat)
    requires Prime(p) && Divides(p, Pow(x, e))
    ensures Divides(p, x)
  {
    if e == 0 {
      assert Pow(x, 0) == 1;
      DivisorBound(p, 1);
    } else {
      PowPositiveNat(x, e - 1);
      EuclidLemma(p, x, Pow(x, e - 1));
      if !Divides(p, x) {
        EuclidPow(p, x, e - 1);
      }
    }
  }

  lemma {:induction false} PowPositiveNat(x: nat, e: nat)
    ensures Pow(x, e) >= 0
  {
    if e > 0 {
      PowPositiveNat(x, e - 1);
    }
  }

  /** Distinct primes do not divide each other. */
  lemma PrimesCoprime(p: int, q: int)
    requires Prime(p) && Prime(q) && p != q
    ensures !Divides(p, q)
  {
    if Divides(p, q) {
      DivisorBound(p, q);
    }
  }

  /** A prime dividing a prime is that prime. */
  lemma PrimeDividesPrime(p: int, q: int)
    requires Prime(p) && Prime(q) && Divides(p, q)
    ensures p == q
  {
    if p != q {
      PrimesCoprime(p, q);
    }
  }
}

/** `generate_divisors`: every divisor of a factored number, in ascending order. */
module Divisors {
  import opened NumberTheory
  import opened PrimeExponents
  import opened Sorting
  import opened Combinations

  /** The product of ps[i] ** c[i] over `zip(ps, c)`: the divisor that the
      exponent vector c picks. */
  function ValueOf(ps: seq<int>, c: seq<nat>): int
  {
    if ps == [] || c == [] then 1 else Pow(ps[0], c[0]) * ValueOf(ps[1..], c[1..])
  }

  /** The exponents of m listed in the order of the keys ks
      (`prime_factors.values()` beside `prime_factors.keys()`). */
  function ExpsOf(ks: seq<int>, m: Exponents): (es: seq<nat>)
    requires forall i :: 0 <= i < |ks| ==> ks[i] in m
    ensures |es| == |ks| && forall i :: 0 <= i < |ks| ==> es[i] == m[ks[i]]
  {
    seq(|ks|, i requires 0 <= i < |ks| => m[ks[i]])
  }

  /** ps lists distinct primes. */
  ghost predicate PrimeList(ps: seq<int>)
  {
    Distinct(ps) && forall i :: 0 <= i < |ps| ==> Prime(ps[i])
  }

  // ---------------------------------------------------------------------
  // Arithmetic helpers

  lemma MulCancel(k: int, x: int, y: int)
    requires k > 0 && k * x == k * y
    ensures x == y
  {
    assert k * (x - y) == 0;
    MulSign(k, x - y);
  }

  lemma PowDivides(p: int, a: nat, b: nat)
    requires p >= 1 && a <= b
    ensures Divides(Pow(p, a), Pow(p, b))
  {
    var gap := b - a;
    PowAdd(p, a, gap);
    assert a + gap == b;
    assert Pow(p, b) == Pow(p, a) * Pow(p, gap);
    PowPositive(p, a);
    DividesByWitness(Pow(p, a), Pow(p, b), Pow(p, gap));
  }

  lemma DividesProduct(a: int, b: int, c: int, d: int)
    requires Divides(a, b) && Divides(c, d)
    ensures Divides(a * c, b * d)
  {
    var k, l := b / a, d / c;
    assert b == a * k && d == c * l;
    assert b * d == (a * c) * (k * l) by {
      MulAssoc(a, k, c * l);
      MulAssoc(c, l, k);
      MulAssoc(a, c, l * k);
    }
    MulSign(a, c);
    DividesByWitness(a * c, b * d, k * l);
  }

  /** Splitting a prime power off a number: d = p^k * rest with p not dividing rest. */
  function Multiplicity(p: int, d: int): (r: (nat, int))
    requires p >= 2 && d >= 1
    ensures r.1 >= 1 && d == Pow(p, r.0) * r.1 && !Divides(p, r.1)
    decreases d
  {
    if d % p == 0 then
      DividesQuotient(p, d);
      MulMonotone(p, 2, d / p, d / p);
      var r := Multiplicity(p, d / p);
      MulAssoc(p, Pow(p, r.0), r.1);
      (r.0 + 1, r.1)
    else
      (0, d)
  }

  // ---------------------------------------------------------------------
  // The value of an exponent vector

  /** One more prime on the right multiplies the value by its power
      (the inner loop over `zip(primes, exp_comb)`). */
  lemma {:induction false} ValueOfSnoc(ps: seq<int>, c: seq<nat>, p: int, e: nat)
    requires |c| == |ps|
    ensures ValueOf(ps + [p], c + [e]) == ValueOf(ps, c) * Pow(p, e)
  {
    if ps == [] {
      assert ps + [p] == [p] && c + [e] == [e];
    } else {
      assert (ps + [p])[1..] == ps[1..] + [p];
      assert (c + [e])[1..] == c[1..] + [e];
      ValueOfSnoc(ps[1..], c[1..], p, e);
      MulAssoc(Pow(ps[0], c[0]), ValueOf(ps[1..], c[1..]), Pow(p, e));
    }
  }

  lemma {:induction false} ValueOfPositive(ps: seq<int>, c: seq<nat>)
    requires |c| == |ps| && AllPositive(ps)
    ensures ValueOf(ps, c) >= 1
  {
    if ps != [] {
      ValueOfPositive(ps[1..], c[1..]);
      PowPositive(ps[0], c[0]);
      MulSign(Pow(ps[0], c[0]), ValueOf(ps[1..], c[1..]));
    }
  }

  lemma BoundedTail(c: seq<nat>, es: seq<nat>)
    requires Bounded(c, es) && es != []
    ensures c[0] <= es[0] && Bounded(c[1..], es[1..])
  {
    assert forall i :: 0 <= i < |c| - 1 ==> c[1..][i] == c[i + 1] && es[1..][i] == es[i + 1];
  }

  /** A bounded exponent vector picks a divisor. */
  lemma {:induction false} ValueOfDivides(ps: seq<int>, c: seq<nat>, es: seq<nat>)
    requires |ps| == |es| && AllPositive(ps) && Bounded(c, es)
    ensures Divides(ValueOf(ps, c), ValueOf(ps, es))
  {
    if ps == [] {
      DividesSelf(1);
    } else {
      BoundedTail(c, es);
      ValueOfDivides(ps[1..], c[1..], es[1..]);
      PowDivides(ps[0], c[0], es[0]);
      DividesProduct(Pow(ps[0], c[0]), Pow(ps[0], es[0]),
                     ValueOf(ps[1..], c[1..]), ValueOf(ps[1..], es[1..]));
    }
  }

  lemma PrimeListTail(ps: seq<int>)
    requires PrimeList(ps) && ps != []
    ensures PrimeList(ps[1..]) && ps[0] !in ps[1..] && Prime(ps[0])
  {
    assert forall j :: 0 <= j < |ps| - 1 ==> ps[1..][j] == ps[j + 1] != ps[0];
  }

  lemma PrimeListPositive(ps: seq<int>)
    requires PrimeList(ps)
    ensures AllPositive(ps)
  {
  }

  /** A prime outside the list divides none of the values it picks. */
  lemma {:induction false} PrimeNotDividesValue(p: int, ps: seq<int>, c: seq<nat>)
    requires Prime(p) && PrimeList(ps) && p !in ps && |c| == |ps|
    ensures !Divides(p, ValueOf(ps, c))
  {
    if ps != [] {
      var q := ps[0];
      PrimeListTail(ps);
      PrimeListPositive(ps[1..]);
      var a, rest := Pow(q, c[0]), ValueOf(ps[1..], c[1..]);
      PrimeNotDividesValue(p, ps[1..], c[1..]);
      PowPositive(q, c[0]);
      ValueOfPositive(ps[1..], c[1..]);
      PrimesCoprime(p, q);
      if Divides(p, a * rest) {
        EuclidLemma(p, a, rest);
        EuclidPow(p, q, c[0]);
      }
    }
  }

  /** If p^a * x == p^b * y with a < b, then p divides x. */
  lemma PowCancelSplit(p: int, a: nat, b: nat, x: int, y: int)
    requires p >= 2 && a < b && Pow(p, a) * x == Pow(p, b) * y
    ensures Divides(p, x)
  {
    var gap := b - a;
    var pa, pd, q := Pow(p, a), Pow(p, gap), Pow(p, gap - 1);
    PowAdd(p, a, gap);
    assert a + gap == b;
    PowPositive(p, a);
    assert pa * x == pa * (pd * y) by {
      MulAssoc(pa, pd, y);
    }
    MulCancel(pa, x, pd * y);
    assert pd == p * q;
    assert x == p * (q * y) by {
      MulAssoc(p, q, y);
    }
    DividesByWitness(p, x, q * y);
  }

  /** Cancelling prime powers: p^a * x == p^b * y with p dividing neither x nor y
      forces a == b and x == y. */
  lemma PowCancel(p: int, a: nat, b: nat, x: int, y: int)
    requires Prime(p) && !Divides(p, x) && !Divides(p, y)
    requires Pow(p, a) * x == Pow(p, b) * y
    ensures a == b && x == y
  {
    if a < b {
      PowCancelSplit(p, a, b, x, y);
    } else if b < a {
      PowCancelSplit(p, b, a, y, x);
    } else {
      PowPositive(p, a);
      MulCancel(Pow(p, a), x, y);
    }
  }

  /** Distinct exponent vectors over distinct primes pick distinct divisors. */
  lemma {:induction false} ValueOfInjective(ps: seq<int>, c1: seq<nat>, c2: seq<nat>)
    requires PrimeList(ps) && |c1| == |ps| && |c2| == |ps|
    requires ValueOf(ps, c1) == ValueOf(ps, c2)
    ensures c1 == c2
  {
    if ps != [] {
      var p := ps[0];
      PrimeListTail(ps);
      PrimeNotDividesValue(p, ps[1..], c1[1..]);
      PrimeNotDividesValue(p, ps[1..], c2[1..]);
      PowCancel(p, c1[0], c2[0], ValueOf(ps[1..], c1[1..]), ValueOf(ps[1..], c2[1..]));
      ValueOfInjective(ps[1..], c1[1..], c2[1..]);
      assert c1 == [c1[0]] + c1[1..] && c2 == [c2[0]] + c2[1..];
    }
  }

  /** A number dd that p does not divide, dividing p * w, divides w. */
  lemma CoprimeStep(p: int, dd: int, w: int)
    requires Prime(p) && !Divides(p, dd) && dd >= 1 && w >= 0 && Divides(dd, p * w)
    ensures Divides(dd, w)
  {
    var z := (p * w) / dd;
    assert p * w == dd * z;
    assert z >= 0 by {
      if z < 0 {
        MulSign(dd, z);
      }
    }
    DividesByWitness(p, dd * z, w);
    EuclidLemma(p, dd, z);
    var z' := z / p;
    assert z == p * z';
    assert p * (dd * z') == p * w by {
      MulAssoc(dd, p, z');
    }
    MulCancel(p, dd * z', w);
    DividesByWitness(dd, w, z');
  }

  /** A number that p does not divide, dividing p^e * r, divides r. */
  lemma {:induction false} CoprimePowCancel(p: int, dd: int, e: nat, r: int)
    requires Prime(p) && !Divides(p, dd) && dd >= 1 && r >= 0 && Divides(dd, Pow(p, e) * r)
    ensures Divides(dd, r)
  {
    if e == 0 {
      assert Pow(p, e) * r == r;
    } else {
      var q := Pow(p, e - 1);
      PowPositive(p, e - 1);
      var w := q * r;
      assert Pow(p, e) * r == p * w by {
        MulAssoc(p, q, r);
      }
      assert w >= 0 by {
        MulMonotone(q, 0, r, 0);
      }
      CoprimeStep(p, dd, w);
      CoprimePowCancel(p, dd, e - 1, r);
    }
  }

  /** A divisor of p^e * r holding p more than e times makes p divide r. */
  lemma PowExcess(p: int, k: nat, e: nat, dd: int, r: int)
    requires p >= 2 && e < k && dd >= 1 && Divides(Pow(p, k) * dd, Pow(p, e) * r)
    ensures Divides(p, r)
  {
    var y := (Pow(p, e) * r) / (Pow(p, k) * dd);
    DividesQuotient(Pow(p, k) * dd, Pow(p, e) * r);
    PowAdd(p, e, k - e);
    PowPositive(p, e);
    var w := Pow(p, k - e) * dd * y;
    assert Pow(p, e) * r == Pow(p, e) * w by {
      MulAssoc(Pow(p, e), Pow(p, k - e), dd);
      MulAssoc(Pow(p, e), Pow(p, k - e) * dd, y);
    }
    MulCancel(Pow(p, e), r, w);
    assert w == p * (Pow(p, k - e - 1) * dd * y) by {
      MulAssoc(p, Pow(p, k - e - 1), dd);
      MulAssoc(p, Pow(p, k - e - 1) * dd, y);
    }
    DividesByWitness(p, r, Pow(p, k - e - 1) * dd * y);
  }

  /** Every divisor of the value of es is picked by some vector bounded by es. */
  lemma {:induction false} ValueOfComplete(ps: seq<int>, es: seq<nat>, d: int) returns (c: seq<nat>)
    requires PrimeList(ps) && |es| == |ps| && Divides(d, ValueOf(ps, es))
    ensures Bounded(c, es) && ValueOf(ps, c) == d
  {
    if ps == [] {
      DivisorBound(d, 1);
      c := [];
    } else {
      var p := ps[0];
      PrimeListTail(ps);
      PrimeListPositive(ps[1..]);
      var r := ValueOf(ps[1..], es[1..]);
      ValueOfPositive(ps[1..], es[1..]);
      PrimeNotDividesValue(p, ps[1..], es[1..]);
      var split := Multiplicity(p, d);
      var k, dd := split.0, split.1;
      if k > es[0] {
        PowExcess(p, k, es[0], dd, r);
      }
      PowPositive(p, k);
      DividesByWitness(dd, d, Pow(p, k));
      DividesTrans(dd, d, Pow(p, es[0]) * r);
      CoprimePowCancel(p, dd, es[0], r);
      var rest := ValueOfComplete(ps[1..], es[1..], dd);
      c := [k] + rest;
      assert c[1..] == rest;
      forall i | 0 <= i < |c|
        ensures c[i] <= es[i]
      {
        if i > 0 {
          assert c[i] == rest[i - 1];
        }
      }
    }
  }

  // ---------------------------------------------------------------------
  // From key sequences back to the mapping

  lemma ExpsOfTail(ks: seq<int>, m: Exponents)
    requires ks != [] && forall i :: 0 <= i < |ks| ==> ks[i] in m
    ensures ExpsOf(ks, m)[1..] == ExpsOf(ks[1..], m)
  {
  }

  lemma {:induction false} FoldSeqValue(ks: seq<int>, m: Exponents)
    requires forall i :: 0 <= i < |ks| ==> ks[i] in m
    ensures FoldSeq(ks, m, PrimePower) == ValueOf(ks, ExpsOf(ks, m))
  {
    if ks != [] {
      ExpsOfTail(ks, m);
      FoldSeqValue(ks[1..], m);
    }
  }

  lemma {:induction false} FoldSeqCount(ks: seq<int>, m: Exponents)
    requires forall i :: 0 <= i < |ks| ==> ks[i] in m
    ensures FoldSeq(ks, m, ExponentCount) == CountProduct(ExpsOf(ks, m))
  {
    if ks != [] {
      ExpsOfTail(ks, m);
      FoldSeqCount(ks[1..], m);
    }
  }

  /** The value of the mapping, and its divisor count, along any key order. */
  lemma EnumerationValue(ks: seq<int>, m: Exponents)
    requires Enumerates(ks, m)
    ensures Value(m) == ValueOf(ks, ExpsOf(ks, m))
    ensures DivisorCount(m) == CountProduct(ExpsOf(ks, m))
  {
    FoldEnumeration(ks, m, PrimePower);
    FoldEnumeration(ks, m, ExponentCount);
    FoldSeqValue(ks, m);
    FoldSeqCount(ks, m);
  }

  /** The keys of a factorization are distinct primes. */
  lemma EnumerationPrimes(ks: seq<int>, m: Exponents)
    requires Enumerates(ks, m) && IsFactorization(m)
    ensures PrimeList(ks)
  {
  }

  // ---------------------------------------------------------------------
  // generate_divisors

  /** products[j] is the divisor picked by combos[j]. */
  ghost predicate PicksAll(primes: seq<int>, combos: seq<seq<nat>>, products: seq<int>)
  {
    |products| == |combos| && forall j :: 0 <= j < |combos| ==> products[j] == ValueOf(primes, combos[j])
  }

  lemma PicksAllMember(primes: seq<int>, combos: seq<seq<nat>>, products: seq<int>, d: int)
    requires PicksAll(primes, combos, products) && d in multiset(products)
    ensures exists j :: 0 <= j < |combos| && d == ValueOf(primes, combos[j])
  {
    var j :| 0 <= j < |products| && products[j] == d;
  }

  /** With positive keys, every entry is a divisor of the value of m. */
  lemma EntriesDivide(m: Exponents, primes: seq<int>, products: seq<int>, d: int)
    requires Enumerates(primes, m) && (forall p :: p in m ==> p >= 1)
    requires PicksAll(primes, Product(ExpsOf(primes, m)), products)
    requires d in multiset(products)
    ensures Divides(d, Value(m))
  {
    var es := ExpsOf(primes, m);
    var combos := Product(es);
    EnumerationValue(primes, m);
    PicksAllMember(primes, combos, products, d);
    var j :| 0 <= j < |combos| && d == ValueOf(primes, combos[j]);
    assert combos[j] in combos;
    ProductMember(es, combos[j]);
    ValueOfDivides(primes, combos[j], es);
  }

  /** Over prime keys no divisor is produced twice. */
  lemma EntriesDistinct(m: Exponents, primes: seq<int>, products: seq<int>)
    requires Enumerates(primes, m) && IsFactorization(m)
    requires PicksAll(primes, Product(ExpsOf(primes, m)), products)
    ensures Distinct(products)
  {
    var es := ExpsOf(primes, m);
    var combos := Product(es);
    EnumerationPrimes(primes, m);
    ProductDistinct(es);
    forall i, j | 0 <= i < j < |products|
      ensures products[i] != products[j]
    {
      assert combos[i] in combos && combos[j] in combos;
      ProductMember(es, combos[i]);
      ProductMember(es, combos[j]);
      if products[i] == products[j] {
        ValueOfInjective(primes, combos[i], combos[j]);
      }
    }
  }

  /** Over prime keys every divisor of the value of m is produced. */
  lemma EntriesComplete(m: Exponents, primes: seq<int>, products: seq<int>, d: int)
    requires Enumerates(primes, m) && IsFactorization(m)
    requires PicksAll(primes, Product(ExpsOf(primes, m)), products)
    requires Divides(d, Value(m))
    ensures d in multiset(products)
  {
    var es := ExpsOf(primes, m);
    var combos := Product(es);
    EnumerationValue(primes, m);
    EnumerationPrimes(primes, m);
    var c := ValueOfComplete(primes, es, d);
    ProductMember(es, c);
    var j :| 0 <= j < |combos| && combos[j] == c;
    assert products[j] == d;
  }

  /** What the divisor list holds, given the divisors picked by all bounded vectors. */
  lemma DivisorList(m: Exponents, primes: seq<int>, products: seq<int>, divisors: seq<int>)
    requires Enumerates(primes, m)
    requires PicksAll(primes, Product(ExpsOf(primes, m)), products)
    requires multiset(divisors) == multiset(products)
    ensures |divisors| == DivisorCount(m)
    ensures (forall p :: p in m ==> p >= 1) ==>
              forall d :: d in divisors ==> Divides(d, Value(m))
    ensures IsFactorization(m) ==> Distinct(divisors)
    ensures IsFactorization(m) ==> forall d :: d in divisors <==> Divides(d, Value(m))
  {
    EnumerationValue(primes, m);
    ProductLength(ExpsOf(primes, m));
    assert |divisors| == |multiset(divisors)| == |products|;
    if forall p :: p in m ==> p >= 1 {
      forall d | d in divisors
        ensures Divides(d, Value(m))
      {
        assert d in multiset(divisors);
        EntriesDivide(m, primes, products, d);
      }
    }
    if IsFactorization(m) {
      EntriesDistinct(m, primes, products);
      DistinctByMultiset(products, divisors);
      forall d | Divides(d, Value(m))
        ensures d in divisors
      {
        EntriesComplete(m, primes, products, d);
        assert d in multiset(divisors);
      }
    }
  }

  /** A rearrangement of a sequence without repeats has none either. */
  lemma DistinctByMultiset(a: seq<int>, b: seq<int>)
    requires Distinct(a) && multiset(a) == multiset(b)
    ensures Distinct(b)
  {
    forall i, j | 0 <= i < j < |b|
      ensures b[i] != b[j]
    {
      if b[i] == b[j] {
        var x := b[i];
        assert multiset(b)[x] >= 2 by {
          assert b == b[..i] + [x] + b[i + 1..j] + [x] + b[j + 1..];
        }
        MultiplicityOne(a, x);
      }
    }
  }

  /** In a sequence without repeats every element occurs at most once. */
  lemma {:induction false} MultiplicityOne(a: seq<int>, x: int)
    requires Distinct(a)
    ensures multiset(a)[x] <= 1
  {
    if a != [] {
      MultiplicityOne(a[1..], x);
      assert a == [a[0]] + a[1..];
      if a[0] == x {
        assert x !in a[1..];
      }
    }
  }

  /** Models `generate_divisors(prime_factors)` (main.py:94-104). */
  method GenerateDivisors(m: Exponents) returns (divisors: seq<int>)
    ensures Sorted(divisors)
    ensures |divisors| == DivisorCount(m)
    ensures (forall p :: p in m ==> p >= 1) ==>
              forall d :: d in divisors ==> Divides(d, Value(m))
    ensures IsFactorization(m) ==> StrictlySorted(divisors)
    ensures IsFactorization(m) ==> forall d :: d in divisors <==> Divides(d, Value(m))
    ensures m == map[] ==> divisors == [1]
  {
    var primes := KeysOf(m);
    var exps := ExpsOf(primes, m);
    var combos := Product(exps);
    var products: seq<int> := [];
    for j := 0 to |combos|
      invariant PicksAll(primes, combos[..j], products)
    {
      var combo := combos[j];
      assert combo in combos;
      ProductMember(exps, combo);
      var divisor := 1;
      for i := 0 to |primes|
        invariant divisor == ValueOf(primes[..i], combo[..i])
      {
        ValueOfSnoc(primes[..i], combo[..i], primes[i], combo[i]);
        assert primes[..i + 1] == primes[..i] + [primes[i]];
        assert combo[..i + 1] == combo[..i] + [combo[i]];
        divisor := divisor * Pow(primes[i], combo[i]);
      }
      assert primes[..|primes|] == primes && combo[..|primes|] == combo;
      products := products + [divisor];
    }
    assert combos[..|combos|] == combos;
    divisors := SortAscending(products);
    DivisorList(m, primes, products, divisors);
    if IsFactorization(m) {
      SortedDistinct(divisors);
    }
    if m == map[] {
      EmptyWithoutKeys(m);
      assert primes == [];
    }
  }

  /** Whatever order the keys of a factorization are visited in, the divisor
      list comes out the same: two strictly sorted lists holding exactly the
      divisors of Value(m) are equal. */
  lemma DivisorsDetermined(m: Exponents, d1: seq<int>, d2: seq<int>)
    requires IsFactorization(m)
    requires StrictlySorted(d1) && forall d :: d in d1 <==> Divides(d, Value(m))
    requires StrictlySorted(d2) && forall d :: d in d2 <==> Divides(d, Value(m))
    ensures d1 == d2
  {
    StrictlySortedUnique(d1, d2);
  }
}

/** The merge after the factoring loop: the factorizations of the factors found
    are added up, exponent by exponent, into `total_factors`. */
module Merge {
  import opened NumberTheory
  import opened PrimeExponents
  import opened Factorize

  /** `product(factor_list)`, multiplied left to right. */
  function SeqProduct(s: seq<int>): int
  {
    if s == [] then 1 else SeqProduct(s[..|s| - 1]) * s[|s| - 1]
  }

  /** The exponent-wise sum of the factorizations of the numbers in fs. */
  function SumAll(fs: seq<int>): Exponents
    requires AllPositive(fs)
  {
    if fs == [] then map[]
    else Sum(SumAll(fs[..|fs| - 1]), Factorization(fs[|fs| - 1]))
  }

  /** The sum over the numbers in fs of the exponent of p in their factorizations. */
  ghost function ExponentSum(fs: seq<int>, p: int): nat
    requires AllPositive(fs)
  {
    if fs == [] then 0
    else ExponentSum(fs[..|fs| - 1], p) + Get(Factorization(fs[|fs| - 1]), p)
  }

  /** The entries of m whose keys are among ks. */
  function Restrict(m: Exponents, ks: seq<int>): (r: Exponents)
    ensures forall p :: Get(r, p) == if p in ks then Get(m, p) else 0
    ensures r.Keys <= m.Keys
  {
    map p | p in m && p in ks :: m[p]
  }

  // ---------------------------------------------------------------------
  // What the merged mapping is

  /** Each exponent of the merged mapping is the sum of that prime's exponents
      over the factors. */
  lemma {:induction false} SumAllExponents(fs: seq<int>, p: int)
    requires AllPositive(fs)
    ensures Get(SumAll(fs), p) == ExponentSum(fs, p)
  {
    if fs != [] {
      SumAllExponents(fs[..|fs| - 1], p);
    }
  }

  /** The merged mapping is a factorization of the product of the factors. */
  lemma {:induction false} SumAllValue(fs: seq<int>)
    requires AllPositive(fs)
    ensures IsFactorization(SumAll(fs))
    ensures Value(SumAll(fs)) == SeqProduct(fs)
  {
    if fs != [] {
      var init, last := fs[..|fs| - 1], fs[|fs| - 1];
      SumAllValue(init);
      FactorizationCorrect(last);
      SumIsFactorization(SumAll(init), Factorization(last));
      ValueSum(SumAll(init), Factorization(last));
    }
  }

  // ---------------------------------------------------------------------
  // The loops

  lemma RestrictStep(m: Exponents, ks: seq<int>, t: int)
    requires Enumerates(ks, m) && 0 <= t < |ks|
    ensures Restrict(m, ks[..t + 1]) == AddTo(Restrict(m, ks[..t]), ks[t], m[ks[t]])
  {
    assert ks[..t + 1] == ks[..t] + [ks[t]];
    assert ks[t] !in ks[..t];
  }

  lemma RestrictAll(m: Exponents, ks: seq<int>)
    requires Enumerates(ks, m)
    ensures Restrict(m, ks) == m
  {
    var r := Restrict(m, ks);
    forall p | p in m
      ensures p in r && r[p] == m[p]
    {
      assert p in ks;
      assert Get(r, p) == Get(m, p);
    }
    assert r.Keys == m.Keys;
  }

  lemma SumAddTo(a: Exponents, b: Exponents, q: int, e: nat)
    ensures Sum(a, AddTo(b, q, e)) == AddTo(Sum(a, b), q, e)
  {
    MapsAgree(Sum(a, AddTo(b, q, e)), AddTo(Sum(a, b), q, e));
  }

  /** Models the merge loop (main.py:132-136). */
  method MergeFactorizations(factorList: seq<int>) returns (total: Exponents)
    requires AllPositive(factorList)
    ensures forall p :: Get(total, p) == ExponentSum(factorList, p)
    ensures IsFactorization(total) && Value(total) == SeqProduct(factorList)
  {
    total := map[];
    for k := 0 to |factorList|
      invariant total == SumAll(factorList[..k])
    {
      assert factorList[..k + 1][..k] == factorList[..k];
      var factorFactors := PrimeFactorize(factorList[k]);
      assert factorFactors == Factorization(factorList[k]);
      var primes := KeysOf(factorFactors);
      ghost var before := total;
      for t := 0 to |primes|
        invariant total == Sum(before, Restrict(factorFactors, primes[..t]))
      {
        var prime := primes[t];
        RestrictStep(factorFactors, primes, t);
        SumAddTo(before, Restrict(factorFactors, primes[..t]), prime, factorFactors[prime]);
        total := AddTo(total, prime, factorFactors[prime]);
      }
      assert primes[..|primes|] == primes;
      RestrictAll(factorFactors, primes);
    }
    assert factorList[..|factorList|] == factorList;
    forall p
      ensures Get(total, p) == ExponentSum(factorList, p)
    {
      SumAllExponents(factorList, p);
    }
    SumAllValue(factorList);
  }
}

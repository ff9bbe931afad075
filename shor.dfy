/** The factoring loop around the order finder, and the script that runs it on
    3072 with base 2, merges the factors and lists the divisors. */
module Shor {
  import opened NumberTheory
  import opened PrimeExponents
  import opened Primality
  import opened Factorize
  import opened Sorting
  import opened Divisors
  import opened Merge

  /** `original_N` */
  const OriginalN: int := 3072
  /** The starting base `a` */
  const InitialBase: int := 2

  /** What one order yields: a proper factor of N, or nothing. */
  datatype Extraction = Factor(f: int) | NoFactor

  /** A gcd with a positive modulus divides the modulus. */
  lemma GcdDividesModulus(x: int, n: int)
    requires n >= 1
    ensures Divides(MathGcd(x, n), n) && Divides(MathGcd(x, n), Abs(x))
  {
    GcdDivides(Abs(x), Abs(n));
  }

  /** The factor step of the loop for an order r of a modulo n: for even r the
      candidates are gcd(a^(r/2) - 1, n) and then gcd(a^(r/2) + 1, n), and the
      first one strictly between 1 and n is taken. */
  function Extract(a: int, n: int, r: nat): (e: Extraction)
    ensures e.Factor? ==> 1 < e.f < n && Divides(e.f, n)
    ensures r % 2 == 1 ==> e == NoFactor
  {
    if r % 2 == 0 then
      var x := Pow(a, r / 2);
      var factor1 := MathGcd(x - 1, n);
      var factor2 := MathGcd(x + 1, n);
      if 1 < factor1 < n then
        GcdDividesModulus(x - 1, n);
        Factor(factor1)
      else if 1 < factor2 < n then
        GcdDividesModulus(x + 1, n);
        Factor(factor2)
      else
        NoFactor
    else
      NoFactor
  }

  // ---------------------------------------------------------------------
  // Why the factor step works

  /** The classical half of Shor's algorithm: when r is even, a^r is 1 modulo n
      and a^(r/2) is neither 1 nor -1 modulo n, the first candidate
      gcd(a^(r/2) - 1, n) is a proper factor of n. */
  lemma ExtractFindsFactor(a: int, n: int, r: nat)
    requires n > 1 && r % 2 == 0
    requires Divides(n, Pow(a, r) - 1)
    requires !Divides(n, Pow(a, r / 2) - 1) && !Divides(n, Pow(a, r / 2) + 1)
    ensures Extract(a, n, r) == Factor(MathGcd(Pow(a, r / 2) - 1, n))
  {
    var x := Pow(a, r / 2);
    PowAdd(a, r / 2, r / 2);
    assert Pow(a, r) - 1 == (x - 1) * (x + 1);
    var g := MathGcd(x - 1, n);
    GcdDividesModulus(x - 1, n);
    DivisorBound(g, n);
    if g == n {
      DividesAbs(n, x - 1);
    }
    if g == 1 {
      Gauss(n, x - 1, x + 1);
    }
  }

  // ---------------------------------------------------------------------
  // The loop

  lemma ProductAppend(s: seq<int>, f: int)
    ensures SeqProduct(s + [f]) == SeqProduct(s) * f
  {
    assert (s + [f])[..|s + [f]| - 1] == s;
  }

  /** A proper factor leaves a proper cofactor. */
  lemma Cofactor(n: int, f: int)
    requires 1 < f < n && Divides(f, n)
    ensures 1 < n / f < n && f * (n / f) == n
  {
    DividesQuotient(f, n);
    MulMonotone(f, 2, n / f, n / f);
    if n / f <= 1 {
      MulMonotone(f, f, 1, n / f);
    }
  }

  /** The state of the factoring loop: `factor_list`, `N`, `a`, and how many
      oracle answers have been used. */
  datatype LoopState = LoopState(factorList: seq<int>, n: int, a: int, used: nat)

  /** Reference definition of the loop (main.py:108-126) on a sequence of oracle
      answers: a prime N is recorded and ends the loop; otherwise the next
      answer r either yields a factor through Extract, which is recorded and
      divided out, or leaves only `a` raised by one. When the answers run out
      with N composite, the state stays as it is. */
  ghost function Rounds(s: LoopState, orders: seq<nat>): LoopState
    requires s.used <= |orders|
    decreases |orders| - s.used, s.n
  {
    if s.n <= 1 then s
    else if Prime(s.n) then LoopState(s.factorList + [s.n], 1, s.a, s.used)
    else if s.used == |orders| then s
    else
      match Extract(s.a, s.n, orders[s.used])
      case Factor(f) => Rounds(LoopState(s.factorList + [f], s.n / f, s.a, s.used + 1), orders)
      case NoFactor => Rounds(LoopState(s.factorList, s.n, s.a + 1, s.used + 1), orders)
  }

  /** What the loop keeps, started from `original` and base a0. */
  ghost predicate Progress(original: int, a0: int, s: LoopState, orders: seq<nat>)
  {
    && SeqProduct(s.factorList) * s.n == original
    && (forall i :: 0 <= i < |s.factorList| ==> s.factorList[i] > 1)
    && s.used <= |orders| && a0 <= s.a
    && (original <= 1 ==> s.factorList == [] && s.n == original && s.a == a0 && s.used == 0)
    && (original > 1 ==> s.n >= 1)
    && (s.n > 1 ==> s.used == (s.a - a0) + |s.factorList|)
    && (original > 1 && s.n == 1 ==>
          |s.factorList| >= 1 && Prime(s.factorList[|s.factorList| - 1])
          && s.used == (s.a - a0) + |s.factorList| - 1)
  }

  /** A prime N is recorded and ends the loop. */
  lemma ProgressPrime(original: int, a0: int, s: LoopState, orders: seq<nat>)
    requires Progress(original, a0, s, orders) && s.n > 1 && Prime(s.n)
    ensures Progress(original, a0, LoopState(s.factorList + [s.n], 1, s.a, s.used), orders)
  {
    ProductAppend(s.factorList, s.n);
  }

  /** A proper factor is recorded and divided out. */
  lemma ProgressFactor(original: int, a0: int, s: LoopState, orders: seq<nat>, f: int)
    requires Progress(original, a0, s, orders) && s.used < |orders|
    requires 1 < f < s.n && Divides(f, s.n)
    ensures Progress(original, a0, LoopState(s.factorList + [f], s.n / f, s.a, s.used + 1), orders)
  {
    Cofactor(s.n, f);
    ProductAppend(s.factorList, f);
    MulAssoc(SeqProduct(s.factorList), f, s.n / f);
  }

  /** A failed round only raises the base. */
  lemma ProgressNoFactor(original: int, a0: int, s: LoopState, orders: seq<nat>)
    requires Progress(original, a0, s, orders) && s.n > 1 && s.used < |orders|
    ensures Progress(original, a0, LoopState(s.factorList, s.n, s.a + 1, s.used + 1), orders)
  {
  }

  /** The loop keeps `product(factor_list) * N == original_N`, records only
      factors above 1, and spends each answer on either a factor or a new base.
      When it stops with N above 1, N is composite and every answer was used. */
  lemma {:induction false} RoundsProgress(original: int, a0: int, s: LoopState, orders: seq<nat>)
    requires Progress(original, a0, s, orders)
    ensures var t := Rounds(s, orders);
              Progress(original, a0, t, orders) && (t.n > 1 ==> !Prime(t.n) && t.used == |orders|)
    decreases |orders| - s.used, s.n
  {
    if s.n > 1 {
      if Prime(s.n) {
        ProgressPrime(original, a0, s, orders);
      } else if s.used < |orders| {
        match Extract(s.a, s.n, orders[s.used])
        case Factor(f) =>
          ProgressFactor(original, a0, s, orders, f);
          RoundsProgress(original, a0, LoopState(s.factorList + [f], s.n / f, s.a, s.used + 1), orders);
        case NoFactor =>
          ProgressNoFactor(original, a0, s, orders);
          RoundsProgress(original, a0, LoopState(s.factorList, s.n, s.a + 1, s.used + 1), orders);
      }
    }
  }

  /** Models the factoring loop (main.py:107-126). `find_order` is an oracle
      whose successive answers are `orders`; the loop stops early, with N still
      composite, once they are used up. */
  method FactorLoop(original: int, a0: int, orders: seq<nat>)
    returns (factorList: seq<int>, n: int, a: int, used: nat)
    ensures LoopState(factorList, n, a, used) == Rounds(LoopState([], original, a0, 0), orders)
    ensures SeqProduct(factorList) * n == original
    ensures forall i :: 0 <= i < |factorList| ==> factorList[i] > 1
    ensures used <= |orders| && a0 <= a
    ensures original <= 1 ==> factorList == [] && n == original && a == a0 && used == 0
    ensures original > 1 ==> n >= 1
    ensures n > 1 ==> !Prime(n) && used == |orders| && used == (a - a0) + |factorList|
    ensures original > 1 && n == 1 ==>
              |factorList| >= 1 && Prime(factorList[|factorList| - 1])
              && used == (a - a0) + |factorList| - 1
  {
    ghost var start := LoopState([], original, a0, 0);
    factorList := [];
    n := original;
    a := a0;
    used := 0;
    while n > 1
      invariant used <= |orders|
      invariant Rounds(LoopState(factorList, n, a, used), orders) == Rounds(start, orders)
      decreases |orders| - used, n
    {
      var nIsPrime := IsPrime(n);
      if nIsPrime {
        factorList := factorList + [n];
        n := 1;
      } else {
        if used == |orders| {
          break;
        }
        var r := orders[used];
        used := used + 1;
        match Extract(a, n, r)
        case Factor(f) =>
          factorList := factorList + [f];
          n := n / f;
        case NoFactor =>
          a := a + 1;
      }
    }
    ProductAppend([], original);
    RoundsProgress(original, a0, start, orders);
  }

  /** A prime N ends Rounds with N = 1. */
  lemma RoundPrime(s: LoopState, orders: seq<nat>)
    requires s.n > 1 && Prime(s.n) && s.used <= |orders|
    ensures Rounds(s, orders).n == 1
  {
  }

  /** One round of Rounds on a composite N that an answer splits. */
  lemma RoundFactor(s: LoopState, orders: seq<nat>, f: int)
    requires s.n > 1 && !Prime(s.n) && s.used < |orders|
    requires Extract(s.a, s.n, orders[s.used]) == Factor(f)
    ensures Rounds(s, orders) == Rounds(LoopState(s.factorList + [f], s.n / f, s.a, s.used + 1), orders)
  {
  }

  /** One round of Rounds on a composite N that an answer does not split. */
  lemma RoundNoFactor(s: LoopState, orders: seq<nat>)
    requires s.n > 1 && !Prime(s.n) && s.used < |orders|
    requires Extract(s.a, s.n, orders[s.used]) == NoFactor
    ensures Rounds(s, orders) == Rounds(LoopState(s.factorList, s.n, s.a + 1, s.used + 1), orders)
  {
  }

  /** With base 3 and r = 2 an even N >= 4 yields the factor gcd(3 - 1, N) = 2. */
  lemma ExtractEven(n: int)
    requires n >= 4 && n % 2 == 0
    ensures Extract(3, n, 2) == Factor(2)
  {
    assert Pow(3, 1) == 3;
    ModSmall(2, n);
    assert Gcd(2, n) == Gcd(n, 2);
    assert Gcd(n, 2) == Gcd(2, 0);
    assert MathGcd(3 - 1, n) == 2;
  }

  /** One round from N = 2^k, k >= 2, with base 3 and answer r = 2 splits off
      a 2 and leaves 2^(k-1). */
  lemma HalvingRound(fs: seq<int>, k: nat, u: nat, orders: seq<nat>)
    requires k >= 2 && u < |orders| && orders[u] == 2
    ensures Rounds(LoopState(fs, Pow(2, k), 3, u), orders)
         == Rounds(LoopState(fs + [2], Pow(2, k - 1), 3, u + 1), orders)
  {
    var n, half := Pow(2, k), Pow(2, k - 1);
    PowAtLeastBase(2, k - 1);
    assert n == 2 * half;
    DividesByWitness(2, n, half);
    NotPrimeByDivisor(n, 2);
    ExtractEven(n);
    RoundFactor(LoopState(fs, n, 3, u), orders, 2);
  }

  /** From N = 2^k with base 3, answers r = 2 split off one 2 per round
      until the prime 2 is left. */
  lemma {:induction false} PowersOfTwoFinish(fs: seq<int>, k: nat, u: nat, orders: seq<nat>)
    requires k >= 1 && u + k - 1 <= |orders|
    requires forall i :: u <= i < |orders| ==> orders[i] == 2
    ensures Rounds(LoopState(fs, Pow(2, k), 3, u), orders).n == 1
    decreases k
  {
    if k == 1 {
      assert Pow(2, k) == 2;
      assert Prime(2);
      RoundPrime(LoopState(fs, 2, 3, u), orders);
    } else {
      HalvingRound(fs, k, u, orders);
      PowersOfTwoFinish(fs + [2], k - 1, u + 1, orders);
    }
  }

  /** With base 2 and r = 2, 3072 yields gcd(2 + 1, 3072) = 3, and 1024 yields
      nothing (both gcds are 1). */
  lemma ExtractOriginal()
    ensures Extract(2, 3072, 2) == Factor(3)
    ensures Extract(2, 1024, 2) == NoFactor
  {
    assert Pow(2, 1) == 2;
    assert Gcd(1, 3072) == Gcd(3072, 1) == Gcd(1, 0);
    assert Gcd(3, 3072) == Gcd(3072, 3) == Gcd(3, 0);
    assert Gcd(1, 1024) == Gcd(1024, 1) == Gcd(1, 0);
    assert Gcd(3, 1024) == Gcd(1024, 3) == Gcd(3, 1) == Gcd(1, 0);
  }

  /** The loop can finish: with eleven answers r = 2 it splits off 3, spends
      one failed round moving to base 3, splits off nine 2s = gcd(3 - 1, 2^k)
      for k = 10 down to 2, and records the prime 2 that is left. */
  lemma RunCanFinish()
    ensures Rounds(LoopState([], OriginalN, InitialBase, 0), seq(11, i => 2)).n == 1
  {
    var orders: seq<nat> := seq(11, i => 2);
    assert orders[0] == 2 && orders[1] == 2;
    ExtractOriginal();
    DividesByWitness(2, 3072, 1536);
    NotPrimeByDivisor(3072, 2);
    RoundFactor(LoopState([], 3072, 2, 0), orders, 3);
    assert [] + [3] == [3] && 3072 / 3 == 1024;
    DividesByWitness(2, 1024, 512);
    NotPrimeByDivisor(1024, 2);
    RoundNoFactor(LoopState([3], 1024, 2, 1), orders);
    assert Pow(2, 10) == 1024 by {
      assert Pow(2, 5) == 32;
    }
    PowersOfTwoFinish([3], 10, 2, orders);
  }

  // ---------------------------------------------------------------------
  // The script

  /** 3072 = 2^10 * 3, which has 11 * 2 divisors. */
  lemma FactorizationOfOriginal()
    ensures Factorization(OriginalN) == map[2 := 10, 3 := 1]
    ensures DivisorCount(map[2 := 10, 3 := 1]) == 22
  {
    var m := map[2 := 10, 3 := 1];
    var m3 := map[3 := 1];
    assert m - {2} == m3;
    assert m3 - {3} == map[];
    FoldAt(m, PrimePower, 2);
    FoldAt(m3, PrimePower, 3);
    FoldAt(m, ExponentCount, 2);
    FoldAt(m3, ExponentCount, 3);
    assert Pow(2, 10) == 1024;
    assert Prime(2);
    assert Prime(3) by {
      assert !Divides(2, 3);
    }
    FactorizationUnique(m);
  }

  /** What the script prints after its loop, once the factors multiply to 3072. */
  lemma ScriptOutcome(factorList: seq<int>, totalFactors: Exponents, allDivisors: seq<int>)
    requires SeqProduct(factorList) == OriginalN
    requires IsFactorization(totalFactors) && Value(totalFactors) == SeqProduct(factorList)
    requires IsFactorization(totalFactors) ==> StrictlySorted(allDivisors)
    requires |allDivisors| == DivisorCount(totalFactors)
    requires IsFactorization(totalFactors) ==>
               forall d :: d in allDivisors <==> Divides(d, Value(totalFactors))
    ensures totalFactors == Factorization(OriginalN) == map[2 := 10, 3 := 1]
    ensures StrictlySorted(allDivisors) && |allDivisors| == 22
    ensures forall d :: d in allDivisors <==> Divides(d, OriginalN)
  {
    FactorizationUnique(totalFactors);
    FactorizationOfOriginal();
  }

  /** The script end to end (main.py:10-12, 107-139): factor 3072 from base 2,
      merge the factorizations of the factors found, and list all divisors.
      When the oracle's answers run out first, the script would still be in its
      loop, and nothing after the loop happens. */
  method Run(orders: seq<nat>) returns (factorList: seq<int>, totalFactors: Exponents,
                                        allDivisors: seq<int>, finished: bool)
    ensures var s := Rounds(LoopState([], OriginalN, InitialBase, 0), orders);
              factorList == s.factorList && (finished <==> s.n == 1)
    ensures !finished ==>
              var s := Rounds(LoopState([], OriginalN, InitialBase, 0), orders);
              s.used == |orders| && !Prime(s.n)
    ensures forall i :: 0 <= i < |factorList| ==> factorList[i] > 1
    ensures finished ==> SeqProduct(factorList) == OriginalN
    ensures finished ==> totalFactors == Factorization(OriginalN) == map[2 := 10, 3 := 1]
    ensures finished ==> StrictlySorted(allDivisors) && |allDivisors| == 22
    ensures finished ==> forall d :: d in allDivisors <==> Divides(d, OriginalN)
    ensures !finished ==> totalFactors == map[] && allDivisors == []
  {
    var n, a, used;
    factorList, n, a, used := FactorLoop(OriginalN, InitialBase, orders);
    finished := n == 1;
    if !finished {
      return factorList, map[], [], false;
    }
    totalFactors := MergeFactorizations(factorList);
    allDivisors := GenerateDivisors(totalFactors);
    ScriptOutcome(factorList, totalFactors, allDivisors);
  }
}

/** Prime -> exponent mappings (the dictionaries `factors` and `total_factors`)
    and the numbers they stand for. */
module PrimeExponents {
  import opened NumberTheory

  /** A mapping from a prime to its exponent, like the source's dictionaries. */
  type Exponents = map<int, nat>

  /** `m.get(p, 0)` */
  function Get(m: Exponents, p: int): nat
  {
    if p in m then m[p] else 0
  }

  /** `m[p] = m.get(p, 0) + k`: the entry for p grows by k, nothing else changes. */
  function AddTo(m: Exponents, p: int, k: nat): (r: Exponents)
    ensures r.Keys == m.Keys + {p}
    ensures Get(r, p) == Get(m, p) + k
    ensures forall q :: q != p ==> Get(r, q) == Get(m, q)
  {
    m[p := Get(m, p) + k]
  }

  /** Exponent-wise sum of two mappings. */
  function Sum(a: Exponents, b: Exponents): (r: Exponents)
    ensures r.Keys == a.Keys + b.Keys
    ensures forall p :: Get(r, p) == Get(a, p) + Get(b, p)
  {
    map p | p in a.Keys + b.Keys :: Get(a, p) + Get(b, p)
  }

  /** Two mappings with the same keys and the same exponents are equal. */
  lemma MapsAgree(l: Exponents, r: Exponents)
    requires l.Keys == r.Keys && forall p :: Get(l, p) == Get(r, p)
    ensures l == r
  {
    forall p | p in l
      ensures l[p] == r[p]
    {
      assert Get(l, p) == Get(r, p);
    }
  }

  /** Every key is prime and every exponent is at least 1. */
  ghost predicate IsFactorization(m: Exponents)
  {
    forall p :: p in m ==> Prime(p) && m[p] >= 1
  }

  /** A mapping without keys is empty. */
  lemma EmptyWithoutKeys(m: Exponents)
    ensures (forall p :: p !in m) ==> m == map[]
  {
    if forall p :: p !in m {
      assert m.Keys == {};
    }
  }

  /** Some key of a non-empty mapping; Fold below peels keys off in this order. */
  ghost function PickKey(m: Exponents): (p: int)
    requires m != map[]
    ensures p in m
  {
    EmptyWithoutKeys(m);
    var p :| p in m; p
  }

  /** The product of f(p, m[p]) over the entries of m. */
  ghost function Fold(m: Exponents, f: (int, nat) -> int): int
    decreases |m|
  {
    if m == map[] then 1
    else
      var p := PickKey(m);
      assert |m - {p}| == |m| - 1 by {
        assert (m - {p}).Keys == m.Keys - {p};
      }
      f(p, m[p]) * Fold(m - {p}, f)
  }

  /** The product of f(ks[i], m[ks[i]]) along a sequence of keys. */
  ghost function FoldSeq(ks: seq<int>, m: Exponents, f: (int, nat) -> int): int
    requires forall i :: 0 <= i < |ks| ==> ks[i] in m
  {
    if ks == [] then 1 else f(ks[0], m[ks[0]]) * FoldSeq(ks[1..], m, f)
  }

  /** p ** e, the factor an entry contributes to the value. */
  function PrimePower(p: int, e: nat): int
  {
    Pow(p, e)
  }

  /** e + 1, the factor an entry contributes to the number of divisors. */
  function ExponentCount(p: int, e: nat): int
  {
    e + 1
  }

  /** The number a mapping stands for: the product of p^e over its entries. */
  ghost function Value(m: Exponents): int
  {
    Fold(m, PrimePower)
  }

  /** The product of (e + 1) over the entries: how many divisors Value(m) has. */
  ghost function DivisorCount(m: Exponents): int
  {
    Fold(m, ExponentCount)
  }

  /** ks lists every key of m exactly once. */
  ghost predicate Enumerates(ks: seq<int>, m: Exponents)
  {
    (forall i, j :: 0 <= i < j < |ks| ==> ks[i] != ks[j])
    && (forall i :: 0 <= i < |ks| ==> ks[i] in m)
    && (forall p :: p in m ==> p in ks)
  }

  // ---------------------------------------------------------------------
  // The fold does not depend on the order in which keys are taken

  lemma {:induction false} FoldAt(m: Exponents, f: (int, nat) -> int, p: int)
    requires p in m
    ensures Fold(m, f) == f(p, m[p]) * Fold(m - {p}, f)
    decreases |m|
  {
    var q := PickKey(m);
    if q != p {
      assert (m - {q}).Keys == m.Keys - {q};
      assert (m - {p}).Keys == m.Keys - {p};
      FoldAt(m - {q}, f, p);
      FoldAt(m - {p}, f, q);
      assert m - {q} - {p} == m - {p} - {q};
    }
  }

  lemma {:induction false} FoldSeqAgree(ks: seq<int>, m1: Exponents, m2: Exponents, f: (int, nat) -> int)
    requires forall i :: 0 <= i < |ks| ==> ks[i] in m1 && ks[i] in m2 && m1[ks[i]] == m2[ks[i]]
    ensures FoldSeq(ks, m1, f) == FoldSeq(ks, m2, f)
  {
    if ks != [] {
      FoldSeqAgree(ks[1..], m1, m2, f);
    }
  }

  /** Folding along any enumeration of the keys gives Fold. */
  lemma {:induction false} FoldEnumeration(ks: seq<int>, m: Exponents, f: (int, nat) -> int)
    requires Enumerates(ks, m)
    ensures FoldSeq(ks, m, f) == Fold(m, f)
  {
    if ks == [] {
      EmptyWithoutKeys(m);
    } else {
      var k := ks[0];
      var m' := m - {k};
      FoldAt(m, f, k);
      forall i | 0 <= i < |ks[1..]|
        ensures ks[1..][i] in m' && ks[1..][i] in m && m'[ks[1..][i]] == m[ks[1..][i]]
      {
        assert ks[1..][i] == ks[i + 1] != ks[0];
      }
      FoldSeqAgree(ks[1..], m, m', f);
      forall p | p in m'
        ensures p in ks[1..]
      {
        assert p in ks && p != ks[0];
      }
      FoldEnumeration(ks[1..], m', f);
    }
  }

  // ---------------------------------------------------------------------
  // Value under the dictionary updates of the source

  /** The value splits into the power of any one prime and the rest. */
  lemma {:induction false} ValueSplit(m: Exponents, p: int)
    ensures Value(m) == Pow(p, Get(m, p)) * Fold(m - {p}, PrimePower)
  {
    if p in m {
      FoldAt(m, PrimePower, p);
    } else {
      assert m - {p} == m;
    }
  }

  /** Raising the exponent of p by k multiplies the value by p^k. */
  lemma {:induction false} ValueAddTo(m: Exponents, p: int, k: nat)
    ensures Value(AddTo(m, p, k)) == Pow(p, k) * Value(m)
  {
    var r := AddTo(m, p, k);
    var rest := Fold(m - {p}, PrimePower);
    var g := Get(m, p);
    assert Value(r) == Pow(p, g + k) * rest by {
      ValueSplit(r, p);
      assert r - {p} == m - {p};
    }
    assert Value(m) == Pow(p, g) * rest by {
      ValueSplit(m, p);
    }
    PowAdd(p, g, k);
    MulCommutes(Pow(p, g), Pow(p, k), rest);
  }

  lemma MulCommutes(x: int, y: int, z: int)
    ensures (x * y) * z == y * (x * z) && x * (y * z) == y * (x * z)
  {
  }

  /** The value of an exponent-wise sum is the product of the values. */
  lemma {:induction false} ValueSum(a: Exponents, b: Exponents)
    ensures Value(Sum(a, b)) == Value(a) * Value(b)
    decreases |b|
  {
    if b == map[] {
      assert Sum(a, b) == a;
    } else {
      var q := PickKey(b);
      var b' := b - {q};
      assert |b'| < |b| by {
        assert b'.Keys == b.Keys - {q};
      }
      var s' := Sum(a, b');
      SumPeel(a, b, q);
      ValueSum(a, b');
      ValueAddTo(s', q, b[q]);
      FoldAt(b, PrimePower, q);
      MulCommutes(Value(a), Pow(q, b[q]), Value(b'));
    }
  }

  lemma {:induction false} SumPeel(a: Exponents, b: Exponents, q: int)
    requires q in b
    ensures Sum(a, b) == AddTo(Sum(a, b - {q}), q, b[q])
  {
    var b' := b - {q};
    assert Get(b', q) == 0;
    assert forall p :: p != q ==> Get(b', p) == Get(b, p);
    MapsAgree(Sum(a, b), AddTo(Sum(a, b'), q, b[q]));
  }

  // ---------------------------------------------------------------------
  // Positivity, and which primes divide the value

  /** With positive keys the value is positive. */
  lemma {:induction false} ValuePositive(m: Exponents)
    requires forall p :: p in m ==> p >= 1
    ensures Value(m) >= 1
    decreases |m|
  {
    if m != map[] {
      var q := PickKey(m);
      assert |m - {q}| < |m| by {
        assert (m - {q}).Keys == m.Keys - {q};
      }
      ValuePositive(m - {q});
      PowPositive(q, m[q]);
      MulSign(Pow(q, m[q]), Value(m - {q}));
    }
  }

  /** A non-empty factorization stands for a number above 1. */
  lemma ValueAboveOne(m: Exponents)
    requires IsFactorization(m)
    ensures m != map[] ==> Value(m) >= 2
  {
    if m != map[] {
      var q := PickKey(m);
      ValuePositive(m - {q});
      PowAtLeastBase(q, m[q]);
      MulSign(Pow(q, m[q]), Value(m - {q}));
    }
  }

  /** Only the primes of a factorization divide its value. */
  lemma {:induction false} PrimeDividesValue(m: Exponents, p: int)
    requires IsFactorization(m) && Prime(p) && Divides(p, Value(m))
    ensures p in m
    decreases |m|
  {
    if m == map[] {
      DivisorBound(p, 1);
    } else {
      var q := PickKey(m);
      var rest := m - {q};
      assert |rest| < |m| by {
        assert rest.Keys == m.Keys - {q};
      }
      ValuePositive(rest);
      PowPositive(q, m[q]);
      EuclidLemma(p, Pow(q, m[q]), Value(rest));
      if Divides(p, Value(rest)) {
        PrimeDividesValue(rest, p);
      } else {
        EuclidPow(p, q, m[q]);
        PrimeDividesPrime(p, q);
      }
    }
  }

  /** Lowering the exponent of p by one: the inverse of AddTo(_, p, 1). */
  function Decrement(m: Exponents, p: int): (r: Exponents)
    requires p in m && m[p] >= 1
    ensures AddTo(r, p, 1) == m
    ensures IsFactorization(m) ==> IsFactorization(r)
  {
    if m[p] == 1 then m - {p} else m[p := m[p] - 1]
  }

  /** Summing two factorizations gives a factorization. */
  lemma SumIsFactorization(a: Exponents, b: Exponents)
    requires IsFactorization(a) && IsFactorization(b)
    ensures IsFactorization(Sum(a, b))
  {
  }

  /** `list(m.keys())`: the keys of m, each once, in some order. */
  method KeysOf(m: Exponents) returns (ks: seq<int>)
    ensures Enumerates(ks, m)
  {
    ks := [];
    var rest := m.Keys;
    while rest != {}
      invariant rest <= m.Keys
      invariant forall i :: 0 <= i < |ks| ==> ks[i] in m && ks[i] !in rest
      invariant forall i, j :: 0 <= i < j < |ks| ==> ks[i] != ks[j]
      invariant forall p :: p in m ==> p in rest || p in ks
      decreases |rest|
    {
      NonEmptySet(rest);
      var p :| p in rest;
      ks := ks + [p];
      rest := rest - {p};
    }
  }

  lemma NonEmptySet(s: set<int>)
    ensures (forall x :: x !in s) ==> s == {}
  {
    if forall x :: x !in s {
      assert s == {};
    }
  }
}

# Classical core of a Shor-style factoring script

The script factors `original_N = 3072`, starting from the base `a = 2`. While
the remaining `N` exceeds 1, the loop does one of two things:

- If `N` is prime, it records `N` and stops.
- Otherwise it asks a quantum order finder for an order `r` of `a` modulo `N`.
  From an even `r` it takes `gcd(a^(r/2) - 1, N)` or else
  `gcd(a^(r/2) + 1, N)` as a factor. When neither is a proper factor, it tries
  the next base.

After the loop, each factor found goes through trial division. The
prime -> exponent dictionaries are summed exponent by exponent. Every divisor
of the merged factorization is generated and sorted.

This project models the classical half, with the order finder as an oracle.
It proves what each part computes:

- the primality test decides primality;
- the factorizer returns *the* prime factorization;
- the divisor generator lists exactly the divisors, each once, in ascending
  order, and there are prod(e + 1) of them;
- the factor loop is the round-by-round replay of the oracle's answers
  through the gcd step, and it keeps `product(factor_list) * N == original_N`;
- the merge yields the exponent sums;
- whenever the script gets past its loop, it ends with `{2: 10, 3: 1}` and
  the 22 divisors of 3072.

Modules, one file each:

| file | module | models |
|---|---|---|
| `number_theory.dfy` | `NumberTheory` | powers, divisibility, primality, `math.gcd`, Euclid's lemma |
| `prime_exponents.dfy` | `PrimeExponents` | the dictionaries: `get`, `d[p] = d.get(p, 0) + k`, the number a mapping stands for, `list(d.keys())` |
| `primality.dfy` | `Primality` | `is_prime` |
| `factorize.dfy` | `Factorize` | `prime_factorize`, and the reference factorization it is proved equal to |
| `combinations.dfy` | `Combinations` | `itertools.product` over ranges of exponents |
| `sorting.dfy` | `Sorting` | `sorted` |
| `divisors.dfy` | `Divisors` | `generate_divisors` |
| `merge.dfy` | `Merge` | the merge loop into `total_factors` |
| `shor.dfy` | `Shor` | the factor step, the `while N > 1` loop and the script end to end |

The order finder is a parameter: a sequence of answers, consumed one per
round in which `N` is composite. Python's integers are unbounded, and so are
Dafny's. On a positive divisor, Python's `%` and `//` floor, and so do Dafny's
Euclidean `%` and `/`. No operation here divides by a negative number, so no
wrap-around or rounding needs modelling. Nothing in this project has been
executed; every statement below is a verified contract.

## Model

| member | source | states |
|---|---|---|
| Primality.IsPrime | main.py:61-74 | The result is true exactly when n > 1 and no d with 1 < d < n divides n. So n <= 1 gives false, 2 and 3 give true, and other multiples of 2 or 3 give false. |
| Primality.WheelStep | main.py:69-73 | One turn of the 6k+/-1 wheel keeps the loop invariant "no divisor of n in [2, i)". i and i + 2 have been checked, and the other four numbers below i + 6 are multiples of 2 or 3. |
| NumberTheory.PrimeBySquareBound | main.py:70-74 | Leaving the trial-division loop with i * i > n, and no divisor in [2, i), proves n prime. |
| Factorize.PrimeFactorize | main.py:77-91 | For n >= 1 the result equals the reference factorization: every key is prime, every exponent is >= 1, the product of p^e is n, and n = 1 gives the empty map. For negative n only 2 can be a key, its exponent is >= 1, and the value is the largest power of 2 dividing -n (so an odd negative n gives the empty map). |
| Factorize.FactorizationCorrect | main.py:77-91 | The reference factorization (repeatedly strip the smallest prime factor) has prime keys, positive exponents and value n. |
| Factorize.FactorizationUnique | main.py:77-91 | Any prime -> exponent map with positive exponents is the factorization of its own value (uniqueness of prime factorization). |
| Factorize.DivideOut | main.py:80-87 | One `factors[i] += 1; n //= i` step strictly decreases n. It keeps the loop invariant: factors plus the factorization of the current n is the factorization of the original n. |
| Factorize.ProductInvariant | main.py:80-88 | That loop invariant gives original n = (product of p^e over `factors`) * current n. |
| Factorize.NoDivisorSkipEven | main.py:84-88 | Once i no longer divides the odd n, n has no divisor below i + 2, so the current n has no prime factor below the next candidate. |
| Factorize.FinishFactorization | main.py:89-91 | When trial division stops, the remainder is 1 or a prime. Adding it when it exceeds 1 completes the factorization. |
| Factorize.StripTwo | main.py:80-82 | For a negative n, halving keeps (power of 2 collected) * n == original n, and the absolute value of n strictly decreases. |
| Factorize.OddRemainder | main.py:80-91 | For a negative n, stopping at an odd remainder leaves the largest power of 2 dividing -n in `factors`. |
| PrimeExponents.AddTo | main.py:86 | `d[p] = d.get(p, 0) + k` adds k to the exponent of p, adds p to the keys and changes no other entry. |
| PrimeExponents.ValueSum | main.py:132-136 | The value of an exponent-wise sum is the product of the values. |
| PrimeExponents.KeysOf | main.py:96 | `list(d.keys())` lists every key of d exactly once. |
| Combinations.ProductLength | main.py:97-99 | `product(range(e0 + 1), ...)` yields prod(e_i + 1) vectors. |
| Combinations.ProductMember | main.py:97-99 | A vector is in the product exactly when it has one entry per range and each entry is at most its exponent. |
| Combinations.ProductDistinct | main.py:97-99 | The product yields no vector twice. |
| Sorting.Insert | main.py:104 | Inserting into a sorted list keeps it sorted and adds exactly that element. |
| Sorting.SortAscending | main.py:104 | `sorted` returns an ascending permutation of its argument. |
| Sorting.StrictlySortedUnique | main.py:104 | Two strictly ascending lists with the same elements are equal. |
| Combinations.Product | main.py:97-99 | `itertools.product` of the ranges `range(e_i + 1)`: `[[]]` for no ranges, the first position varying slowest. |
| Divisors.ExpsOf | main.py:97 | `prime_factors.values()` in the order of the listed keys: one exponent per key, the exponent of that key. |
| Divisors.ValueOf | main.py:100-102 | The product of `prime ** exp` over `zip(primes, exp_comb)`, stopping at the shorter input. |
| Divisors.ValueOfInjective | main.py:100-102 | Over distinct primes, distinct exponent vectors multiply out to distinct divisors. |
| Divisors.ValueOfComplete | main.py:99-103 | Over distinct primes, every divisor of prod p_i^e_i comes from some exponent vector bounded by e. |
| Divisors.DivisorList | main.py:97-104 | The list holds DivisorCount(m) = prod(e + 1) entries. With positive keys each entry divides the value of m. With prime keys the entries are distinct and are exactly the divisors. |
| Divisors.GenerateDivisors | main.py:94-104 | The result is ascending and has prod(e + 1) entries. With positive keys every entry divides the value of m. With prime keys it is strictly ascending and d is in it exactly when d divides the value. The empty map gives [1]. |
| Divisors.DivisorsDetermined | main.py:96-104 | For a factorization the divisor list does not depend on the order in which the dictionary's keys are visited. |
| Merge.SumAllExponents | main.py:133-136 | Summing the factorizations gives each prime the sum of its exponents over the factors. |
| Merge.SumAllValue | main.py:132-136 | The merged map is a factorization whose value is `product(factor_list)`. |
| Merge.MergeFactorizations | main.py:132-136 | `total_factors[p]` is the sum over the factors of `prime_factorize(factor)[p]`. `total_factors` is a factorization of `product(factor_list)`. |
| NumberTheory.MathGcd | main.py:115-116 | `math.gcd`: Euclid's algorithm on the absolute values, so gcd(0, N) = N. |
| Shor.Extract | main.py:114-126 | A factor this step returns lies strictly between 1 and N and divides N. An odd order yields nothing. |
| Shor.ExtractFindsFactor | main.py:113-119 | Suppose r is even, a^r = 1 mod N and a^(r/2) is not +/-1 mod N. Then the step returns gcd(a^(r/2) - 1, N), so the oracle's order yields a factor. |
| Shor.Cofactor | main.py:117-122 | Dividing N by a proper factor leaves a proper cofactor, so N strictly decreases and stays above 1. |
| Shor.Rounds | main.py:108-126 | Reference replay of the loop on the oracle answers, following the branches of lines 109-126 in order. A prime N is appended and ends the loop. A composite N takes the next answer r: a proper factor from Extract(a, N, r) is appended and divided out; otherwise only `a` rises by one. With N composite and no answers left, the state stays as it is. |
| Shor.RoundsProgress | main.py:108-126 | Every round of the loop keeps `product(factor_list) * N == original_N` with factors above 1, and spends each answer on either one factor or one new base. A run that stops with N > 1 has a composite N and no answers left. |
| Shor.FactorLoop | main.py:107-126 | The final (factor_list, N, a, answers used) is exactly what Rounds gives. Rounds replays main.py:108-126 on the oracle answers: a prime N is appended and ends the loop. A composite N consumes the next answer r. If Extract(a, N, r) yields a factor, it is appended and divided out; otherwise only `a` rises by one. The loop keeps `product(factor_list) * N == original_N`, and every recorded factor exceeds 1. When N = 1 the last factor is prime; when N > 1 remains, N is composite and every answer was used. |
| Shor.RunCanFinish | main.py:107-126 | The loop can finish from 3072 and base 2. With eleven answers r = 2 it splits off 3 = gcd(2 + 1, 3072), fails once on 1024 and moves to base 3, then splits off nine 2s = gcd(3 - 1, 2^k) for k = 10 down to 2. The prime 2 that is left is recorded and ends the loop. |
| Shor.FactorizationOfOriginal | main.py:10 | 3072 = 2^10 * 3, which has 22 divisors. |
| Shor.ScriptOutcome | main.py:131-139 | Take factors whose product is 3072, their merged factorization, and its divisor list. The total is {2: 10, 3: 1}, and the list is strictly ascending, of length 22, and holds exactly the divisors of 3072. |
| Shor.Run | main.py:107-139 | `factor_list` is the one Rounds produces from 3072 and base 2, and `finished` holds exactly when that loop reaches N = 1. Otherwise every answer was used and N is still composite. When finished, the factors multiply to 3072, `total_factors` is {2: 10, 3: 1}, and `all_divisors` holds exactly the 22 divisors of 3072 in ascending order. |

## Left out

- `find_order` (main.py:29-58) is not modelled. It builds and simulates a quantum circuit with random shots, a floating-point phase and a continued-fraction step. Its answers are an arbitrary `seq<nat>` parameter instead, a superset of the positive denominators it can return.
- `modular_exponentiation` (main.py:15-17) and `classical_multiplication_gate` (main.py:20-26) are not modelled. They only feed the circuit inside `find_order`.
- The two `print` lines (main.py:129, 140) are output formatting and are not modelled.
- Shor.FactorLoop: it does not prove that the loop terminates, because the source loop terminates only if the randomised oracle eventually cooperates. The model consumes one oracle answer per composite round. It stops, with N still composite, when the answers run out, where the source would keep asking.
- Shor.Run: when the oracle answers run out before N reaches 1, the source would still be inside its loop. The model then reports `finished == false`. It returns the partial `factor_list`, and `total_factors` and `all_divisors` are empty.
- Factorize.PrimeFactorize: n = 0 is excluded by the precondition, because the source never returns for it (0 is divisible by 2 forever).
- PrimeExponents.KeysOf: it lists the keys in an arbitrary order, not in the dictionary's insertion order. Both uses are independent of the order. The merge sums exponents (Merge.MergeFactorizations). The divisor list is sorted (Divisors.DivisorsDetermined).
- Divisors.GenerateDivisors: for a map whose keys are not all primes (which the script never builds), it states only length, ascending order and, with positive keys, divisibility.
- `itertools.product`, `zip` and `sorted` are library code. They are modelled as functions with the same results: lexicographic product, pairing up to the shorter input, and an insertion sort.

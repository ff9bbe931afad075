/** `itertools.product(range(e0 + 1), range(e1 + 1), ...)`: every exponent vector
    bounded by a given one, the first position changing slowest. */
module Combinations {
  import opened Sorting

  /** `[(k,) + c for c in cs]` */
  function Prefix(k: nat, cs: seq<seq<nat>>): (r: seq<seq<nat>>)
    ensures |r| == |cs|
    ensures forall j :: 0 <= j < |cs| ==> r[j] == [k] + cs[j]
  {
    seq(|cs|, j requires 0 <= j < |cs| => [k] + cs[j])
  }

  /** `[(k,) + c for k in range(u) for c in cs]` */
  function Block(u: nat, cs: seq<seq<nat>>): seq<seq<nat>>
  {
    if u == 0 then [] else Block(u - 1, cs) + Prefix(u - 1, cs)
  }

  /** The product of the ranges `range(es[i] + 1)`, in lexicographic order. */
  function Product(es: seq<nat>): seq<seq<nat>>
  {
    if es == [] then [[]] else Block(es[0] + 1, Product(es[1..]))
  }

  /** c is an exponent vector of the same length as es, bounded by it entry-wise. */
  ghost predicate Bounded(c: seq<nat>, es: seq<nat>)
  {
    |c| == |es| && forall i :: 0 <= i < |c| ==> c[i] <= es[i]
  }

  /** The number of bounded vectors: the product of (es[i] + 1). */
  function CountProduct(es: seq<nat>): nat
  {
    if es == [] then 1 else (es[0] + 1) * CountProduct(es[1..])
  }

  // ---------------------------------------------------------------------
  // Length

  lemma {:induction false} BlockLength(u: nat, cs: seq<seq<nat>>)
    ensures |Block(u, cs)| == u * |cs|
  {
    if u > 0 {
      BlockLength(u - 1, cs);
    }
  }

  /** The product has one entry per bounded vector. */
  lemma {:induction false} ProductLength(es: seq<nat>)
    ensures |Product(es)| == CountProduct(es)
  {
    if es != [] {
      ProductLength(es[1..]);
      BlockLength(es[0] + 1, Product(es[1..]));
    }
  }

  // ---------------------------------------------------------------------
  // Membership

  lemma PrefixMember(k: nat, cs: seq<seq<nat>>, c: seq<nat>)
    ensures c in Prefix(k, cs) <==> |c| >= 1 && c[0] == k && c[1..] in cs
  {
    var r := Prefix(k, cs);
    if c in r {
      var j :| 0 <= j < |r| && r[j] == c;
      assert c[1..] == cs[j];
    }
    if |c| >= 1 && c[0] == k && c[1..] in cs {
      var j :| 0 <= j < |cs| && cs[j] == c[1..];
      assert c == [k] + cs[j];
      assert r[j] == c;
    }
  }

  lemma {:induction false} BlockMember(u: nat, cs: seq<seq<nat>>, c: seq<nat>)
    ensures c in Block(u, cs) <==> |c| >= 1 && c[0] < u && c[1..] in cs
  {
    if u > 0 {
      BlockMember(u - 1, cs, c);
      PrefixMember(u - 1, cs, c);
    }
  }

  /** The product holds exactly the vectors bounded by es. */
  lemma {:induction false} ProductMember(es: seq<nat>, c: seq<nat>)
    ensures c in Product(es) <==> Bounded(c, es)
  {
    if es == [] {
      if |c| == 0 {
        assert c == [];
      }
    } else {
      BlockMember(es[0] + 1, Product(es[1..]), c);
      if |c| >= 1 {
        ProductMember(es[1..], c[1..]);
        if Bounded(c[1..], es[1..]) && c[0] <= es[0] {
          forall i | 0 <= i < |c|
            ensures c[i] <= es[i]
          {
            if i > 0 {
              assert c[i] == c[1..][i - 1];
            }
          }
        }
        if Bounded(c, es) {
          forall i | 0 <= i < |c| - 1
            ensures c[1..][i] <= es[1..][i]
          {
            assert c[1..][i] == c[i + 1];
          }
        }
      }
    }
  }

  // ---------------------------------------------------------------------
  // No vector twice

  lemma DistinctConcat<T>(a: seq<T>, b: seq<T>)
    requires Distinct(a) && Distinct(b)
    requires forall x :: x in a ==> x !in b
    ensures Distinct(a + b)
  {
    forall i, j | 0 <= i < j < |a + b|
      ensures (a + b)[i] != (a + b)[j]
    {
      if i < |a| && j >= |a| {
        assert (a + b)[i] in a;
        assert (a + b)[j] in b;
      }
    }
  }

  lemma PrefixDistinct(k: nat, cs: seq<seq<nat>>)
    requires Distinct(cs)
    ensures Distinct(Prefix(k, cs))
  {
    var r := Prefix(k, cs);
    forall i, j | 0 <= i < j < |r|
      ensures r[i] != r[j]
    {
      assert r[i][1..] == cs[i] && r[j][1..] == cs[j];
    }
  }

  lemma {:induction false} BlockDistinct(u: nat, cs: seq<seq<nat>>)
    requires Distinct(cs)
    ensures Distinct(Block(u, cs))
  {
    if u > 0 {
      var k := u - 1;
      var earlier, last := Block(k, cs), Prefix(k, cs);
      BlockDistinct(k, cs);
      PrefixDistinct(k, cs);
      forall c | c in earlier
        ensures c !in last
      {
        BlockMember(k, cs, c);
        PrefixMember(k, cs, c);
      }
      DistinctConcat(earlier, last);
    }
  }

  /** The product lists no vector twice. */
  lemma {:induction false} ProductDistinct(es: seq<nat>)
    ensures Distinct(Product(es))
  {
    if es != [] {
      ProductDistinct(es[1..]);
      BlockDistinct(es[0] + 1, Product(es[1..]));
    }
  }
}

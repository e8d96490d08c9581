/** Polynomials over GF(2), written as bit strings with the highest power first, and long
    division by a generator polynomial. This is the reference the shift registers of
    nopebts/CommonLibs/BitVector.h are proved against. */
module Polynomials {
  import opened Collections

  type Bits = seq<bool>

  ghost function Xor(a: Bits, b: Bits): (x: Bits)
    requires |a| == |b|
    ensures |x| == |a| && forall i :: 0 <= i < |a| ==> x[i] == (a[i] != b[i])
  {
    seq(|a|, i requires 0 <= i < |a| => a[i] != b[i])
  }

  ghost predicate IsZero(a: Bits) {
    forall i :: 0 <= i < |a| ==> !a[i]
  }

  /** A generator polynomial of degree |g| - 1 >= 1 */
  ghost predicate IsGenerator(g: Bits) {
    |g| >= 2 && g[0]
  }

  /** The product q * g, of length |q| + |g| - 1 */
  ghost function Product(q: Bits, g: Bits): (p: Bits)
    requires |g| >= 1
    ensures |p| == |q| + |g| - 1
  {
    if |q| == 0 then Zeros(|g| - 1)
    else
      var k := |q| - 1;
      Xor(Product(q[..k], g) + [false], Zeros(k) + if q[k] then g else Zeros(|g|))
  }

  /** p == q * g + r with r of lower degree than g. The leading zeros give both sides the same
      length, so p may be shorter than g. */
  ghost predicate Divides(p: Bits, g: Bits, q: Bits, r: Bits)
    requires |g| >= 1
  {
    && |q| == |p|
    && |r| == |g| - 1
    && Zeros(|r|) + p == Xor(Product(q, g), Zeros(|p|) + r)
  }

  ghost predicate IsRemainder(p: Bits, g: Bits, r: Bits)
    requires |g| >= 1
  {
    exists q :: Divides(p, g, q, r)
  }

  lemma ProductStep(q: Bits, b: bool, g: Bits)
    requires |g| >= 1
    ensures Product(q + [b], g) == Xor(Product(q, g) + [false], Zeros(|q|) + if b then g else Zeros(|g|))
  {
    assert (q + [b])[..|q|] == q;
  }

  /** Coefficient i of the product after one more coefficient of the quotient */
  lemma ProductStepAt(q: Bits, b: bool, g: Bits, i: nat)
    requires |g| >= 1 && i < |q| + |g|
    ensures Product(q + [b], g)[i] ==
      ((i < |q| + |g| - 1 && Product(q, g)[i]) != (i >= |q| && b && g[i - |q|]))
  {
    ProductStep(q, b, g);
  }

  lemma ProductAt(q: Bits, g: Bits, k: nat, i: nat)
    requires |g| >= 1 && |q| == k + 1 && i < k + |g|
    ensures Product(q, g)[i] == ((i < k + |g| - 1 && Product(q[..k], g)[i]) != (i >= k && q[k] && g[i - k]))
  {
    hide Product;
    assert q == q[..k] + [q[k]];
    ProductStepAt(q[..k], q[k], g, i);
  }

  // ---------------------------------------------------------------- uniqueness

  lemma {:induction false} ProductLeads(q: Bits, g: Bits, k: nat)
    requires IsGenerator(g) && k < |q|
    requires q[k] && IsZero(q[..k])
    ensures Product(q, g)[k]
  {
    var n := |q| - 1;
    if k < n {
      assert q[..n][..k] == q[..k];
      ProductLeads(q[..n], g, k);
    } else {
      ProductOfZero(q[..n], g);
    }
  }

  lemma {:induction false} ProductOfZero(q: Bits, g: Bits)
    requires |g| >= 1 && IsZero(q)
    ensures IsZero(Product(q, g))
  {
    if |q| > 0 {
      ProductOfZero(q[..|q| - 1], g);
    }
  }

  lemma {:induction false} FirstOne(q: Bits) returns (k: nat)
    requires !IsZero(q)
    ensures k < |q| && q[k] && IsZero(q[..k])
  {
    k := 0;
    while !q[k]
      invariant k < |q| && IsZero(q[..k])
      invariant exists i :: k <= i < |q| && q[i]
      decreases |q| - k
    {
      k := k + 1;
    }
  }

  lemma {:induction false} ProductIsLinear(a: Bits, b: Bits, g: Bits)
    requires |a| == |b| && |g| >= 1
    ensures Product(Xor(a, b), g) == Xor(Product(a, g), Product(b, g))
  {
    var c := Xor(a, b);
    forall i | 0 <= i < |a| + |g| - 1
      ensures Product(c, g)[i] == (Product(a, g)[i] != Product(b, g)[i])
    {
      ProductIsLinearAt(a, b, c, g, i);
    }
  }

  lemma {:induction false} ProductIsLinearAt(a: Bits, b: Bits, c: Bits, g: Bits, i: nat)
    requires |a| == |b| == |c| && |g| >= 1 && i < |a| + |g| - 1
    requires forall k :: 0 <= k < |c| ==> c[k] == (a[k] != b[k])
    ensures Product(c, g)[i] == (Product(a, g)[i] != Product(b, g)[i])
  {
    if |a| > 0 {
      var k := |a| - 1;
      if i < k + |g| - 1 {
        ProductIsLinearAt(a[..k], b[..k], c[..k], g, i);
      }
      ProductAt(a, g, k, i);
      ProductAt(b, g, k, i);
      ProductAt(c, g, k, i);
      hide Product;
    }
  }

  lemma XorCancels(a: Bits, b: Bits, c: Bits, d: Bits)
    requires |a| == |b| == |c| == |d| && Xor(a, b) == Xor(c, d)
    ensures Xor(a, c) == Xor(b, d)
  {
    forall i | 0 <= i < |a|
      ensures (a[i] != c[i]) == (b[i] != d[i])
    {
      assert Xor(a, b)[i] == Xor(c, d)[i];
    }
  }

  lemma ZeroQuotient(d: Bits, g: Bits)
    requires IsGenerator(g) && forall i :: 0 <= i < |d| ==> !Product(d, g)[i]
    ensures IsZero(Product(d, g))
  {
    if !IsZero(d) {
      var k := FirstOne(d);
      ProductLeads(d, g, k);
    }
    ProductOfZero(d, g);
  }

  /** There is at most one remainder. */
  lemma RemainderIsUnique(p: Bits, g: Bits, r1: Bits, r2: Bits)
    requires IsGenerator(g) && IsRemainder(p, g, r1) && IsRemainder(p, g, r2)
    ensures r1 == r2
  {
    var q1 :| Divides(p, g, q1, r1);
    var q2 :| Divides(p, g, q2, r2);
    var n := |p|;
    hide Product, Zeros, Xor;
    ProductIsLinear(q1, q2, g);
    XorCancels(Product(q1, g), Zeros(n) + r1, Product(q2, g), Zeros(n) + r2);
    var pd := Product(Xor(q1, q2), g);
    assert pd == Xor(Zeros(n) + r1, Zeros(n) + r2);
    ZeroQuotient(Xor(q1, q2), g);
    forall i | 0 <= i < |r1|
      ensures r1[i] == r2[i]
    {
      assert !pd[n + i];
    }
  }
}

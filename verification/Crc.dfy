/** The shift-register generator and the parity checker (nopebts/CommonLibs/BitVector.h,
    nopebts/CommonLibs/BitVector.cpp), proved to compute remainders modulo the generator
    polynomial and to detect every burst no longer than the register. */
module Crc {
  import opened Collections
  import opened Polynomials

  // ---------------------------------------------------------------- specification of a shift

  /** Append one coefficient to the remainder s and reduce modulo g. */
  ghost function SyndromeStep(g: Bits, s: Bits, b: bool): (r: Bits)
    requires |g| == |s| + 1 >= 2
    ensures |r| == |s|
  {
    var t := s + [b];
    (if s[0] then Xor(t, g) else t)[1..]
  }

  /** The same for the remainder of s * x^m, with the coefficient entering at power m. */
  ghost function EncoderStep(g: Bits, s: Bits, b: bool): (r: Bits)
    requires |g| == |s| + 1 >= 2
    ensures |r| == |s|
  {
    var t := s + [false];
    (if s[0] != b then Xor(t, g) else t)[1..]
  }

  ghost function SyndromeOf(g: Bits, s: Bits, data: Bits): (r: Bits)
    requires |g| == |s| + 1 >= 2
    ensures |r| == |s|
  {
    if |data| == 0 then s
    else SyndromeStep(g, SyndromeOf(g, s, data[..|data| - 1]), data[|data| - 1])
  }

  ghost function ParityOf(g: Bits, s: Bits, data: Bits): (r: Bits)
    requires |g| == |s| + 1 >= 2
    ensures |r| == |s|
  {
    if |data| == 0 then s
    else EncoderStep(g, ParityOf(g, s, data[..|data| - 1]), data[|data| - 1])
  }

  // ---------------------------------------------------------------- arithmetic modulo g

  lemma {:induction false} SyndromeIsRemainder(g: Bits, data: Bits)
    requires IsGenerator(g)
    ensures IsRemainder(data, g, SyndromeOf(g, Zeros(|g| - 1), data))
  {
    var s0 := Zeros(|g| - 1);
    if |data| == 0 {
      assert Divides([], g, [], s0);
    } else {
      var k := |data| - 1;
      var s := SyndromeOf(g, s0, data[..k]);
      SyndromeIsRemainder(g, data[..k]);
      var q :| Divides(data[..k], g, q, s);
      DivisionStep(g, data[..k], q, s, data[k]);
      assert data == data[..k] + [data[k]];
    }
  }

  lemma DivisionStep(g: Bits, p: Bits, q: Bits, s: Bits, b: bool)
    requires IsGenerator(g) && Divides(p, g, q, s)
    ensures Divides(p + [b], g, q + [s[0]], SyndromeStep(g, s, b))
  {
    hide Product, Zeros, Xor, SyndromeStep;
    var m, n := |s|, |p|;
    var left, right := Zeros(m) + (p + [b]), Xor(Product(q + [s[0]], g), Zeros(n + 1) + SyndromeStep(g, s, b));
    var before := Xor(Product(q, g), Zeros(n) + s);
    forall i | 0 <= i < |left|
      ensures left[i] == right[i]
    {
      if i < n + m {
        assert (Zeros(m) + p)[i] == before[i];
      }
      DivisionAt(g, p, q, s, b, i);
    }
  }

  lemma DivisionAt(g: Bits, p: Bits, q: Bits, s: Bits, b: bool, i: nat)
    requires IsGenerator(g) && |q| == |p| && |s| == |g| - 1 && i < |p| + |g|
    requires i < |p| + |s| ==> (i >= |s| && p[i - |s|]) == (Product(q, g)[i] != (i >= |p| && s[i - |p|]))
    ensures (if i < |s| then false else if i < |s| + |p| then p[i - |s|] else b)
         == (Product(q + [s[0]], g)[i] != (i > |p| && SyndromeStep(g, s, b)[i - |p| - 1]))
  {
    ProductStepAt(q, s[0], g, i);
    SyndromeStepAt(g, s, b);
    hide Product, Zeros, Xor, SyndromeStep;
  }

  lemma SyndromeStepAt(g: Bits, s: Bits, b: bool)
    requires |g| == |s| + 1 >= 2
    ensures forall k :: 0 <= k < |s| ==>
      SyndromeStep(g, s, b)[k] == ((if k + 1 < |s| then s[k + 1] else b) != (s[0] && g[k + 1]))
  {
  }

  lemma EncoderStepAt(g: Bits, s: Bits, b: bool)
    requires |g| == |s| + 1 >= 2
    ensures forall k :: 0 <= k < |s| ==>
      EncoderStep(g, s, b)[k] == ((k + 1 < |s| && s[k + 1]) != (s[0] != b && g[k + 1]))
  {
  }

  lemma PaddedXor(n: nat, k: nat, a: Bits, b: Bits)
    requires |a| == k + |b|
    ensures Xor(Zeros(n) + a, Zeros(n + k) + b) == Zeros(n) + Xor(a, Zeros(k) + b)
  {
  }

  lemma {:induction false} PaddedQuotientAt(g: Bits, n: nat, q: Bits, i: nat)
    requires |g| >= 1 && i < n + |q| + |g| - 1
    ensures Product(Zeros(n) + q, g)[i] == (i >= n && Product(q, g)[i - n])
    decreases |q|
  {
    if |q| == 0 {
      assert Zeros(n) + q == Zeros(n);
      ProductOfZero(Zeros(n), g);
      ProductOfZero(q, g);
    } else {
      hide Product, Zeros;
      var k, b := |q| - 1, q[|q| - 1];
      var front, z := q[..k], Zeros(n) + q[..k];
      assert q == front + [b] && Zeros(n) + q == z + [b];
      if i < n + k + |g| - 1 {
        PaddedQuotientAt(g, n, front, i);
      }
      PaddedNext(g, n, front, z, b, i);
    }
  }

  lemma PaddedNext(g: Bits, n: nat, q: Bits, z: Bits, b: bool, i: nat)
    requires |g| >= 1 && |z| == n + |q| && i < |z| + |g|
    requires i < |z| + |g| - 1 ==> Product(z, g)[i] == (i >= n && Product(q, g)[i - n])
    ensures Product(z + [b], g)[i] == (i >= n && Product(q + [b], g)[i - n])
  {
    hide Product, Zeros, Xor;
    ProductStepAt(z, b, g, i);
    if i >= n {
      ProductStepAt(q, b, g, i - n);
    }
  }

  lemma PaddedQuotient(g: Bits, n: nat, q: Bits)
    requires |g| >= 1
    ensures Product(Zeros(n) + q, g) == Zeros(n) + Product(q, g)
  {
    hide Product, Zeros;
    forall i | 0 <= i < n + |q| + |g| - 1
      ensures Product(Zeros(n) + q, g)[i] == (Zeros(n) + Product(q, g))[i]
    {
      PaddedQuotientAt(g, n, q, i);
    }
  }

  lemma EncoderDivisionStep(g: Bits, p: Bits, q: Bits, e: Bits, b: bool)
    requires IsGenerator(g) && |q| == |p| && |e| == |g| - 1
    requires p + Zeros(|e|) == Xor(Product(q, g), Zeros(|p|) + e)
    ensures p + [b] + Zeros(|e|) == Xor(Product(q + [e[0] != b], g), Zeros(|p| + 1) + EncoderStep(g, e, b))
  {
    hide Product, Zeros, Xor, EncoderStep;
    var m, n := |e|, |p|;
    var left, right := p + [b] + Zeros(m), Xor(Product(q + [e[0] != b], g), Zeros(n + 1) + EncoderStep(g, e, b));
    var before := Xor(Product(q, g), Zeros(n) + e);
    forall i | 0 <= i < |left|
      ensures left[i] == right[i]
    {
      if i < n + m {
        assert (p + Zeros(m))[i] == before[i];
      }
      EncoderDivisionAt(g, p, q, e, b, i);
    }
  }

  lemma EncoderDivisionAt(g: Bits, p: Bits, q: Bits, e: Bits, b: bool, i: nat)
    requires IsGenerator(g) && |q| == |p| && |e| == |g| - 1 && i < |p| + |g|
    requires i < |p| + |e| ==> (i < |p| && p[i]) == (Product(q, g)[i] != (i >= |p| && e[i - |p|]))
    ensures (if i < |p| then p[i] else if i == |p| then b else false)
         == (Product(q + [e[0] != b], g)[i] != (i > |p| && EncoderStep(g, e, b)[i - |p| - 1]))
  {
    hide Product, Zeros, Xor, EncoderStep;
    ProductStepAt(q, e[0] != b, g, i);
    EncoderStepAt(g, e, b);
  }

  lemma NoData(g: Bits)
    requires IsGenerator(g)
    ensures Xor(Product([], g), Zeros(0) + ParityOf(g, Zeros(|g| - 1), [])) == Zeros(|g| - 1)
  {
    assert ParityOf(g, Zeros(|g| - 1), []) == Zeros(|g| - 1) && Zeros(0) == [];
  }

  lemma ParityStepOf(g: Bits, s: Bits, data: Bits, b: bool)
    requires |g| == |s| + 1 >= 2
    ensures ParityOf(g, s, data + [b]) == EncoderStep(g, ParityOf(g, s, data), b)
  {
    hide EncoderStep;
    assert (data + [b])[..|data|] == data;
  }

  lemma {:induction false} ParityQuotient(g: Bits, data: Bits) returns (q: Bits)
    requires IsGenerator(g)
    ensures |q| == |data|
    ensures data + Zeros(|g| - 1) == Xor(Product(q, g), Zeros(|data|) + ParityOf(g, Zeros(|g| - 1), data))
  {
    hide Product, Zeros, Xor, EncoderStep, ParityOf;
    var m := |g| - 1;
    if |data| == 0 {
      q := [];
      NoData(g);
      assert data == [] && data + Zeros(m) == Zeros(m);
    } else {
      var front, b := data[..|data| - 1], data[|data| - 1];
      assert data == front + [b];
      ParityStepOf(g, Zeros(m), front, b);
      var q0 := ParityQuotient(g, front);
      var e := ParityOf(g, Zeros(m), front);
      EncoderDivisionStep(g, front, q0, e, b);
      q := q0 + [e[0] != b];
    }
  }

  /** The parity word is the remainder of data * x^m. */
  lemma ParityIsRemainder(g: Bits, data: Bits)
    requires IsGenerator(g)
    ensures IsRemainder(data + Zeros(|g| - 1), g, ParityOf(g, Zeros(|g| - 1), data))
  {
    var q := ParityQuotient(g, data);
    var m, n := |g| - 1, |data|;
    var e := ParityOf(g, Zeros(m), data);
    PaddedQuotient(g, m, q);
    PaddedXor(m, n, Product(q, g), e);
    assert Zeros(m) + Product(q, g) == Product(Zeros(m) + q, g);
    assert Divides(data + Zeros(m), g, Zeros(m) + q, e);
  }

  /** Replacing the m low coefficients by the remainder they have makes the remainder zero. */
  lemma CodewordDivides(g: Bits, data: Bits)
    requires IsGenerator(g)
    ensures IsRemainder(data + ParityOf(g, Zeros(|g| - 1), data), g, Zeros(|g| - 1))
  {
    var m, n := |g| - 1, |data|;
    hide Product, EncoderStep, ParityOf;
    var e := ParityOf(g, Zeros(m), data);
    var q := ParityQuotient(g, data);
    PaddedQuotient(g, m, q);
    MoveRemainder(data, e, Product(q, g));
    XorWithZeros(Zeros(m) + (data + e), n + m, m);
    assert Divides(data + e, g, Zeros(m) + q, Zeros(m));
  }

  lemma XorWithZeros(a: Bits, j: nat, k: nat)
    requires |a| == j + k
    ensures Xor(a, Zeros(j) + Zeros(k)) == a
  {
  }

  lemma MoveRemainder(data: Bits, e: Bits, p: Bits)
    requires |p| == |data| + |e|
    requires data + Zeros(|e|) == Xor(p, Zeros(|data|) + e)
    ensures p == data + e
  {
    forall i | 0 <= i < |p|
      ensures p[i] == (data + e)[i]
    {
      assert (data + Zeros(|e|))[i] == Xor(p, Zeros(|data|) + e)[i];
    }
  }

  lemma SyndromeStepOf(g: Bits, s: Bits, data: Bits, b: bool)
    requires |g| == |s| + 1 >= 2
    ensures SyndromeOf(g, s, data + [b]) == SyndromeStep(g, SyndromeOf(g, s, data), b)
  {
    assert (data + [b])[..|data|] == data;
  }

  // ---------------------------------------------------------------- linearity

  lemma StepIsLinear(g: Bits, s: Bits, t: Bits, a: bool, b: bool)
    requires |g| == |s| + 1 == |t| + 1 >= 2
    ensures SyndromeStep(g, Xor(s, t), a != b) == Xor(SyndromeStep(g, s, a), SyndromeStep(g, t, b))
  {
  }

  lemma {:induction false} SyndromeIsLinear(g: Bits, s: Bits, t: Bits, a: Bits, b: Bits)
    requires |g| == |s| + 1 == |t| + 1 >= 2 && |a| == |b|
    ensures SyndromeOf(g, Xor(s, t), Xor(a, b)) == Xor(SyndromeOf(g, s, a), SyndromeOf(g, t, b))
  {
    if |a| > 0 {
      var k := |a| - 1;
      SyndromeIsLinear(g, s, t, a[..k], b[..k]);
      assert Xor(a, b)[..k] == Xor(a[..k], b[..k]);
      StepIsLinear(g, SyndromeOf(g, s, a[..k]), SyndromeOf(g, t, b[..k]), a[k], b[k]);
    }
  }

  lemma {:induction false} SyndromeOfConcat(g: Bits, s: Bits, a: Bits, b: Bits)
    requires |g| == |s| + 1 >= 2
    ensures SyndromeOf(g, s, a + b) == SyndromeOf(g, SyndromeOf(g, s, a), b)
  {
    if |b| == 0 {
      assert a + b == a;
    } else {
      var k := |b| - 1;
      SyndromeOfConcat(g, s, a, b[..k]);
      assert (a + b)[..|a| + k] == a + b[..k];
    }
  }

  /** Up to m coefficients are below the degree of g and are their own remainder. */
  lemma {:induction false} ShortSyndrome(g: Bits, data: Bits)
    requires |g| >= 2 && |data| <= |g| - 1
    ensures SyndromeOf(g, Zeros(|g| - 1), data) == Zeros(|g| - 1 - |data|) + data
  {
    if |data| > 0 {
      ShortSyndrome(g, data[..|data| - 1]);
    }
  }

  lemma {:induction false} LeadingZeros(g: Bits, n: nat)
    requires |g| >= 2
    ensures SyndromeOf(g, Zeros(|g| - 1), Zeros(n)) == Zeros(|g| - 1)
  {
    if n > 0 {
      LeadingZeros(g, n - 1);
      assert Zeros(n)[..n - 1] == Zeros(n - 1);
    }
  }

  // ---------------------------------------------------------------- codewords

  /** Every codeword, data followed by its parity word, has syndrome zero. Followed by the
      inverted parity word, as 3GPP TS 45.003 section 4.1.2 prescribes, it has the all-ones
      syndrome. */
  lemma CodewordSyndrome(g: Bits, data: Bits)
    requires IsGenerator(g)
    ensures var e := ParityOf(g, Zeros(|g| - 1), data);
      && SyndromeOf(g, Zeros(|g| - 1), data + e) == Zeros(|g| - 1)
      && SyndromeOf(g, Zeros(|g| - 1), data + Inverted(e)) == Inverted(Zeros(|g| - 1))
  {
    hide SyndromeOf, ParityOf, IsRemainder;
    var m, n := |g| - 1, |data|;
    var z := Zeros(m);
    var e := ParityOf(g, z, data);
    CodewordDivides(g, data);
    SyndromeIsRemainder(g, data + e);
    RemainderIsUnique(data + e, g, z, SyndromeOf(g, z, data + e));
    SyndromeOfOnes(g, n);
    InvertedTail(data, e);
    SyndromeIsLinear(g, z, z, data + e, Zeros(n) + Inverted(z));
    assert Xor(z, z) == z;
    assert Xor(z, Inverted(z)) == Inverted(z);
  }

  lemma SyndromeOfOnes(g: Bits, n: nat)
    requires |g| >= 2
    ensures SyndromeOf(g, Zeros(|g| - 1), Zeros(n) + Inverted(Zeros(|g| - 1))) == Inverted(Zeros(|g| - 1))
  {
    hide SyndromeOf, Zeros, Xor;
    var z := Zeros(|g| - 1);
    SyndromeOfConcat(g, z, Zeros(n), Inverted(z));
    LeadingZeros(g, n);
    ShortSyndrome(g, Inverted(z));
    assert Zeros(0) + Inverted(z) == Inverted(z);
  }

  lemma InvertedTail(data: Bits, e: Bits)
    ensures data + Inverted(e) == Xor(data + e, Zeros(|data|) + Inverted(Zeros(|e|)))
  {
  }

  ghost function Inverted(a: Bits): (r: Bits)
    ensures |r| == |a| && forall i :: 0 <= i < |a| ==> r[i] == !a[i]
  {
    seq(|a|, i requires 0 <= i < |a| => !a[i])
  }

  /** The syndrome is zero exactly for the multiples of the generator. */
  lemma ZeroSyndrome(g: Bits, p: Bits)
    requires IsGenerator(g)
    ensures SyndromeOf(g, Zeros(|g| - 1), p) == Zeros(|g| - 1) <==> IsRemainder(p, g, Zeros(|g| - 1))
  {
    SyndromeIsRemainder(g, p);
    if IsRemainder(p, g, Zeros(|g| - 1)) {
      RemainderIsUnique(p, g, Zeros(|g| - 1), SyndromeOf(g, Zeros(|g| - 1), p));
    }
  }

  // ---------------------------------------------------------------- burst errors

  /** A non-zero error pattern confined to m consecutive positions */
  ghost predicate IsBurst(e: Bits, m: nat, start: nat) {
    !IsZero(e) && forall i :: 0 <= i < |e| && e[i] ==> start <= i < start + m
  }

  ghost predicate Detected(g: Bits, word: Bits, e: Bits)
    requires |g| >= 2 && |word| == |e|
  {
    SyndromeOf(g, Zeros(|g| - 1), Xor(word, e)) != SyndromeOf(g, Zeros(|g| - 1), word)
  }

  ghost predicate DetectsBursts(g: Bits, m: nat)
    requires |g| >= 2
  {
    forall word: Bits, e: Bits, start: nat ::
      |word| == |e| && IsBurst(e, m, start) ==> Detected(g, word, e)
  }

  /** With a constant coefficient, a zero input never clears a non-zero register. */
  lemma {:induction false} StaysNonZero(g: Bits, s: Bits, n: nat)
    requires |g| == |s| + 1 >= 2 && g[|s|] && !IsZero(s)
    ensures !IsZero(SyndromeOf(g, s, Zeros(n)))
  {
    if n > 0 {
      var m := |s|;
      StaysNonZero(g, s, n - 1);
      assert Zeros(n)[..n - 1] == Zeros(n - 1);
      var t := SyndromeOf(g, s, Zeros(n - 1));
      var r := SyndromeStep(g, t, false);
      if t[0] {
        assert r[m - 1];
      } else {
        var i :| 0 <= i < m && t[i];
        assert r[i - 1];
      }
    }
  }

  lemma SyndromeSeesError(g: Bits, word: Bits, e: Bits)
    requires |g| >= 2 && |word| == |e|
    ensures Detected(g, word, e) <==> !IsZero(SyndromeOf(g, Zeros(|g| - 1), e))
  {
    hide SyndromeOf, Zeros, Xor;
    var z := Zeros(|g| - 1);
    assert Xor(z, z) == z;
    SyndromeIsLinear(g, z, z, word, e);
    var a, b, c := SyndromeOf(g, z, word), SyndromeOf(g, z, e), SyndromeOf(g, z, Xor(word, e));
    assert forall i :: 0 <= i < |z| ==> c[i] == (a[i] != b[i]);
    if IsZero(b) {
      assert c == a;
    }
  }

  lemma BurstIsDetected(g: Bits, word: Bits, e: Bits, start: nat)
    requires |g| >= 2 && g[|g| - 1]
    requires |word| == |e| && IsBurst(e, |g| - 1, start)
    ensures Detected(g, word, e)
  {
    hide SyndromeOf, Detected, Zeros, Xor;
    var m, n := |g| - 1, |e|;
    var stop := if start + m <= n then start + m else n;
    var window := e[start..stop];
    BurstShape(e, m, start, stop);
    LeadingZeros(g, start);
    SyndromeOfConcat(g, Zeros(m), Zeros(start), window + Zeros(n - stop));
    SyndromeOfConcat(g, Zeros(m), window, Zeros(n - stop));
    ShortSyndrome(g, window);
    StaysNonZero(g, Zeros(m - |window|) + window, n - stop);
    SyndromeSeesError(g, word, e);
  }

  lemma BurstShape(e: Bits, m: nat, start: nat, stop: nat)
    requires IsBurst(e, m, start) && stop == if start + m <= |e| then start + m else |e|
    ensures start < stop
    ensures e == Zeros(start) + (e[start..stop] + Zeros(|e| - stop))
    ensures !IsZero(Zeros(m - (stop - start)) + e[start..stop])
  {
    var i :| 0 <= i < |e| && e[i];
    assert (Zeros(m - (stop - start)) + e[start..stop])[m - (stop - start) + i - start];
  }

  /** All bursts of up to m positions are detected, in words of every length, exactly when the
      generator has a constant coefficient; longer bursts never all are. */
  lemma BurstDetection(g: Bits)
    requires IsGenerator(g)
    ensures DetectsBursts(g, |g| - 1) <==> g[|g| - 1]
    ensures !DetectsBursts(g, |g|)
  {
    hide SyndromeOf, Detected, Zeros, Xor;
    var m := |g| - 1;
    GeneratorDividesItself(g);
    SyndromeSeesError(g, g, g);
    assert IsBurst(g, m + 1, 0) && !Detected(g, g, g);
    if g[m] {
      forall word: Bits, e: Bits, start: nat | |word| == |e| && IsBurst(e, m, start)
        ensures Detected(g, word, e)
      {
        BurstIsDetected(g, word, e, start);
      }
    } else {
      assert IsBurst(g, m, 0);
    }
  }

  lemma GeneratorDividesItself(g: Bits)
    requires IsGenerator(g)
    ensures IsZero(SyndromeOf(g, Zeros(|g| - 1), g))
  {
    var m := |g| - 1;
    var s := g[..m];
    SyndromeOfWhole(g, s);
    SyndromeStepOf(g, Zeros(m), s, g[m]);
    StepOfGenerator(g);
    hide SyndromeOf, SyndromeStep;
    assert s + [g[m]] == g;
  }

  lemma SyndromeOfWhole(g: Bits, s: Bits)
    requires |g| == |s| + 1 >= 2
    ensures SyndromeOf(g, Zeros(|s|), s) == s
  {
    ShortSyndrome(g, s);
    assert Zeros(|g| - 1 - |s|) + s == s;
  }

  lemma StepOfGenerator(g: Bits)
    requires IsGenerator(g)
    ensures IsZero(SyndromeStep(g, g[..|g| - 1], g[|g| - 1]))
  {
    SyndromeStepAt(g, g[..|g| - 1], g[|g| - 1]);
  }
}

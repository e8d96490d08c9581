/** Lexicographic permutation generator (peepuhl/Permutation-Generator.cpp).

    The specification is independent of the algorithm: the rank of a permutation in the
    factorial number system. Rank orders permutations of one set exactly as the
    lexicographic order does, and each call of the generator raises it by one. */
module Permutations {
  import opened Collections

  // ---------------------------------------------------------------- specification

  function Factorial(n: nat): (f: nat)
    ensures f >= 1
  {
    if n == 0 || n == 1 then 1 else Factorial(n - 1) * n
  }

  ghost function Elements(s: seq<int>): set<int> {
    set x | x in s
  }

  /** s is a permutation of 1..n */
  ghost predicate IsPermutation(s: seq<int>, n: nat) {
    && |s| == n
    && Distinct(s)
    && forall x :: x in s <==> 1 <= x <= n
  }

  ghost predicate LexLess(a: seq<int>, b: seq<int>) {
    exists k :: 0 <= k < |a| && k < |b| && a[..k] == b[..k] && a[k] < b[k]
  }

  ghost predicate Ascending(s: seq<int>) {
    forall i, j :: 0 <= i < j < |s| ==> s[i] < s[j]
  }

  ghost predicate Descending(s: seq<int>) {
    forall i, j :: 0 <= i < j < |s| ==> s[i] > s[j]
  }

  ghost function Below(x: int, s: set<int>): set<int> {
    set y | y in s && y < x
  }

  /** Position of s among the arrangements of its own elements, counted from 0 */
  ghost function Rank(s: seq<int>): nat {
    if |s| == 0 then 0
    else Times(|Below(s[0], Elements(s))|, Arrangements(|s| - 1)) + Rank(s[1..])
  }

  /** c * f, by repeated addition */
  ghost function Times(c: nat, f: nat): nat {
    if c == 0 then 0 else Times(c - 1, f) + f
  }

  /** The number of arrangements of n distinct elements */
  ghost function Arrangements(n: nat): nat {
    if n == 0 then 1 else Times(n, Arrangements(n - 1))
  }

  lemma {:induction false} FactorialCounts(n: nat)
    ensures Factorial(n) == Arrangements(n)
  {
    if n > 0 {
      FactorialCounts(n - 1);
      FactorialStep(n);
      ArrangementsStep(n);
      hide Factorial, Arrangements;
      TimesIsProduct(n, Arrangements(n - 1));
    }
  }

  lemma FactorialStep(n: nat)
    requires n >= 1
    ensures Factorial(n) == Factorial(n - 1) * n
  {
  }

  lemma ArrangementsStep(n: nat)
    requires n >= 1
    ensures Arrangements(n) == Times(n, Arrangements(n - 1))
  {
  }

  lemma {:induction false} TimesIsProduct(c: nat, f: nat)
    ensures Times(c, f) == f * c
  {
    if c > 0 {
      TimesIsProduct(c - 1, f);
    }
  }

  // ---------------------------------------------------------------- facts about Rank

  lemma RankStep(s: seq<int>)
    requires |s| > 0
    ensures Rank(s) == Times(|Below(s[0], Elements(s))|, Arrangements(|s| - 1)) + Rank(s[1..])
  {
  }

  lemma {:induction false} DistinctCardinality(s: seq<int>)
    requires Distinct(s)
    ensures |Elements(s)| == |s|
  {
    if |s| == 0 {
      assert Elements(s) == {};
    } else {
      DistinctCardinality(s[1..]);
      assert Elements(s) == {s[0]} + Elements(s[1..]);
    }
  }

  lemma BelowFirst(s: seq<int>)
    requires Distinct(s) && |s| > 0
    ensures Below(s[0], Elements(s)) <= Elements(s[1..])
    ensures |Below(s[0], Elements(s))| <= |s| - 1
  {
    DistinctCardinality(s[1..]);
    assert Elements(s) == {s[0]} + Elements(s[1..]);
    SubsetCardinality(Below(s[0], Elements(s)), Elements(s[1..]));
  }

  lemma {:induction false} TimesMonotone(a: nat, b: nat, f: nat)
    requires a <= b
    ensures Times(a, f) <= Times(b, f)
  {
    if a < b {
      TimesMonotone(a, b - 1, f);
    }
  }

  /** Every rank is a number below n! */
  lemma {:induction false} RankBound(s: seq<int>)
    requires Distinct(s)
    ensures Rank(s) < Arrangements(|s|)
  {
    if |s| > 0 {
      RankBound(s[1..]);
      BelowFirst(s);
      TimesMonotone(|Below(s[0], Elements(s))|, |s| - 1, Arrangements(|s| - 1));
    }
  }

  lemma {:induction false} AscendingRank(s: seq<int>)
    requires Ascending(s)
    ensures Rank(s) == 0
  {
    if |s| > 0 {
      AscendingRank(s[1..]);
      assert Below(s[0], Elements(s)) == {};
    }
  }

  lemma {:induction false} DescendingRank(s: seq<int>)
    requires Descending(s)
    ensures Rank(s) == Arrangements(|s|) - 1
  {
    if |s| > 0 {
      DescendingRank(s[1..]);
      DistinctCardinality(s[1..]);
      assert Below(s[0], Elements(s)) == Elements(s[1..]);
    }
  }

  lemma MixedRadix(c1: nat, r1: nat, c2: nat, r2: nat, f: nat)
    requires r1 < f && c1 < c2
    ensures Times(c1, f) + r1 < Times(c2, f) + r2
  {
    TimesMonotone(c1 + 1, c2, f);
  }

  lemma TailElements(s: seq<int>)
    requires Distinct(s) && |s| > 0
    ensures Elements(s[1..]) == Elements(s) - {s[0]}
  {
  }

  /** Rank and lexicographic order agree on the arrangements of one set. */
  lemma {:induction false} RankIncreases(a: seq<int>, b: seq<int>, k: nat)
    requires Distinct(a) && Distinct(b) && |a| == |b| && Elements(a) == Elements(b)
    requires k < |a| && a[..k] == b[..k] && a[k] < b[k]
    ensures Rank(a) < Rank(b)
  {
    hide Rank, Times, Arrangements;
    RankStep(a);
    RankStep(b);
    var at, bt := a[1..], b[1..];
    TailElements(a);
    TailElements(b);
    RankBound(at);
    RankBound(bt);
    if k == 0 {
      var lo, hi := Below(a[0], Elements(a)), Below(b[0], Elements(b));
      assert a[0] in hi && a[0] !in lo;
      SubsetCardinality(lo, hi);
      MixedRadix(|lo|, Rank(at), |hi|, Rank(bt), Arrangements(|at|));
    } else {
      assert a[0] == a[..k][0] == b[0];
      assert at[..k-1] == a[..k][1..] == bt[..k-1];
      RankIncreases(at, bt, k - 1);
    }
  }

  lemma {:induction false} FirstDifference(a: seq<int>, b: seq<int>) returns (k: nat)
    requires |a| == |b| && a != b
    ensures k < |a| && a[..k] == b[..k] && a[k] != b[k]
  {
    if a[0] != b[0] {
      k := 0;
    } else {
      assert a == [a[0]] + a[1..] && b == [b[0]] + b[1..];
      var k' := FirstDifference(a[1..], b[1..]);
      k := k' + 1;
      assert a[..k] == [a[0]] + a[1..][..k'] && b[..k] == [b[0]] + b[1..][..k'];
    }
  }

  lemma RankIsLexicographic(a: seq<int>, b: seq<int>)
    requires Distinct(a) && Distinct(b) && |a| == |b| && Elements(a) == Elements(b)
    ensures LexLess(a, b) <==> Rank(a) < Rank(b)
    ensures a == b <==> Rank(a) == Rank(b)
  {
    if LexLess(a, b) {
      var k :| 0 <= k < |a| && k < |b| && a[..k] == b[..k] && a[k] < b[k];
      RankIncreases(a, b, k);
    }
    if a != b {
      var k := FirstDifference(a, b);
      if a[k] < b[k] {
        RankIncreases(a, b, k);
      } else {
        RankIncreases(b, a, k);
      }
    }
  }

  lemma PermutationElements(a: seq<int>, b: seq<int>, n: nat)
    requires IsPermutation(a, n) && IsPermutation(b, n)
    ensures Elements(a) == Elements(b)
  {
    forall x
      ensures x in Elements(a) <==> x in Elements(b)
    {
      assert x in a <==> 1 <= x <= n;
      assert x in b <==> 1 <= x <= n;
    }
  }

  // ---------------------------------------------------------------- one step

  /** A common prefix contributes the same amount to both ranks. */
  lemma {:induction false} RankPrefix(p: seq<int>, t: seq<int>, u: seq<int>)
    requires |t| == |u| && Elements(t) == Elements(u)
    ensures Rank(p + t) - Rank(t) == Rank(p + u) - Rank(u)
  {
    if |p| == 0 {
      assert p + t == t && p + u == u;
    } else {
      RankPrefix(p[1..], t, u);
      assert (p + t)[1..] == p[1..] + t && (p + u)[1..] == p[1..] + u;
      assert Elements(p + t) == Elements(p) + Elements(t);
      assert Elements(p + u) == Elements(p) + Elements(u);
    }
  }

  lemma TimesNext(c: nat, f: nat)
    ensures Times(c + 1, f) == Times(c, f) + f
  {
  }

  lemma OneMoreBelow(t: seq<int>, u: seq<int>)
    requires |t| > 0 && |u| > 0 && Elements(t) == Elements(u)
    requires t[0] < u[0] && forall x :: x in t && x > t[0] ==> x >= u[0]
    ensures |Below(u[0], Elements(u))| == |Below(t[0], Elements(t))| + 1
  {
    var lo, hi := Below(t[0], Elements(t)), Below(u[0], Elements(u));
    forall x
      ensures x in hi <==> x in lo + {t[0]}
    {
      assert x in Elements(t) <==> x in t;
      assert t[0] in t;
    }
    assert hi == lo + {t[0]};
  }

  lemma TailRank(d: int, suffix: seq<int>, e: int, ascending: seq<int>)
    requires Descending(suffix) && Ascending(ascending) && |suffix| == |ascending|
    requires Elements([d] + suffix) == Elements([e] + ascending)
    requires d < e && forall x :: x in suffix && x > d ==> x >= e
    ensures Rank([e] + ascending) == Rank([d] + suffix) + 1
  {
    hide Rank, Times, Arrangements, Below, Elements;
    var t, u := [d] + suffix, [e] + ascending;
    assert t[1..] == suffix && u[1..] == ascending;
    OneMoreBelow(t, u);
    DescendingRank(suffix);
    AscendingRank(ascending);
    RankStep(t);
    RankStep(u);
    TimesNext(|Below(d, Elements(t))|, Arrangements(|suffix|));
  }

  /** The step from d followed by a descending run to e followed by an ascending run, where e
      is the least element of the run above d, raises the rank by exactly one. */
  lemma SuccessorRank(p: seq<int>, d: int, suffix: seq<int>, e: int, ascending: seq<int>)
    requires Descending(suffix) && Ascending(ascending) && |suffix| == |ascending|
    requires Elements([d] + suffix) == Elements([e] + ascending)
    requires d < e && forall x :: x in suffix && x > d ==> x >= e
    ensures Rank(p + ([e] + ascending)) == Rank(p + ([d] + suffix)) + 1
  {
    TailRank(d, suffix, e, ascending);
    RankPrefix(p, [d] + suffix, [e] + ascending);
  }

  lemma {:induction false} DistinctByCardinality(s: seq<int>)
    ensures |Elements(s)| <= |s|
    ensures |Elements(s)| == |s| ==> Distinct(s)
  {
    if |s| > 0 {
      var t := s[1..];
      DistinctByCardinality(t);
      assert Elements(s) == {s[0]} + Elements(t);
      assert s[0] in t ==> Elements(s) == Elements(t);
      assert forall i :: 0 < i < |s| ==> s[i] == t[i - 1];
    } else {
      assert Elements(s) == {};
    }
  }

  lemma {:induction false} SuffixElements(s: seq<int>, d: nat)
    requires Distinct(s) && d <= |s|
    ensures Elements(s[d..]) == Elements(s) - Elements(s[..d])
  {
    assert s == s[..d] + s[d..];
    forall x | x in s[d..]
      ensures x !in s[..d]
    {
    }
  }

  /** The rightmost element of a descending run above v is the least one above v. */
  lemma LeastAbove(run: seq<int>, k: nat, v: int)
    requires Descending(run) && k < |run|
    requires v < run[k] && forall i :: k < i < |run| ==> run[i] < v
    ensures forall x :: x in run && x > v ==> x >= run[k]
  {
  }

  /** The three loops of a call turn b into its successor r. */
  lemma StepIsSuccessor(b: seq<int>, d: nat, j: nat, r: seq<int>)
    requires Distinct(b) && |r| == |b| && Elements(r) == Elements(b)
    requires d < j < |b| && Descending(b[d + 1..])
    requires b[d] < b[j] && forall i :: j < i < |b| ==> b[i] < b[d]
    requires r[..d] == b[..d] && r[d] == b[j] && Ascending(r[d + 1..])
    ensures Distinct(r)
    ensures Rank(r) == Rank(b) + 1 && LexLess(b, r)
  {
    DistinctCardinality(b);
    DistinctByCardinality(r);
    SuffixElements(b, d);
    SuffixElements(r, d);
    LeastAbove(b[d + 1..], j - d - 1, b[d]);
    SplitStep(b, d, r);
    SuccessorRank(b[..d], b[d], b[d + 1..], r[d], r[d + 1..]);
  }

  lemma SplitStep(b: seq<int>, d: nat, r: seq<int>)
    requires d < |b| == |r| && r[..d] == b[..d]
    ensures b[d..] == [b[d]] + b[d + 1..] && r[d..] == [r[d]] + r[d + 1..]
    ensures b == b[..d] + ([b[d]] + b[d + 1..]) && r == b[..d] + ([r[d]] + r[d + 1..])
  {
  }

  /** Replacing one element of a descending run by a value between its neighbours and then
      reversing the run leaves it ascending. */
  lemma ReversedRun(b: seq<int>, d: nat, j: nat, r: seq<int>)
    requires d < j < |b| == |r| && Descending(b[d + 1..])
    requires b[d] < b[j] && forall i :: j < i < |b| ==> b[i] < b[d]
    requires forall i :: d < i < |b| ==> r[i] == b[j := b[d]][|b| + d - i]
    ensures Ascending(r[d + 1..])
  {
    var run := b[d + 1..];
    forall x, y | d < x < y < |b|
      ensures r[x] < r[y]
    {
      var p, q := |b| + d - y, |b| + d - x;
      assert run[p - d - 1] > run[q - d - 1];
      assert p < j ==> run[p - d - 1] > run[j - d - 1];
    }
  }

  // ---------------------------------------------------------------- the generator

  class PermutationGenerator {
    const size: int
    var base: seq<int>

    constructor (n: int)
      ensures size == n && base == []
    {
      size := n;
      base := [];
    }

    /** Either nothing was produced yet, or base holds the permutation produced last. */
    ghost predicate Valid()
      reads this
    {
      base == [] || (size >= 0 && IsPermutation(base, size))
    }

    method Swap(i: nat, j: nat)
      requires i < |base| && j < |base|
      modifies this
      ensures base == old(base)[i := old(base)[j]][j := old(base)[i]]
      ensures Elements(base) == Elements(old(base))
    {
      var temp := base[i];
      base := base[i := base[j]];
      base := base[j := temp];
      SwapElements(old(base), i, j);
    }

    method Fill()
      requires base == []
      modifies this
      ensures size <= 0 ==> base == []
      ensures size > 0 ==> IsPermutation(base, size) && Rank(base) == 0
    {
      var s := 0;
      while s < size
        invariant 0 <= s && (s == 0 || s <= size)
        invariant |base| == s && forall i :: 0 <= i < s ==> base[i] == i + 1
      {
        base := base + [s + 1];
        s := s + 1;
      }
      AscendingRank(base);
      forall x | 1 <= x <= |base|
        ensures x in base
      {
        assert base[x - 1] == x;
      }
    }

    method ReverseSuffix(d: nat)
      requires d < |base|
      modifies this
      ensures |base| == |old(base)| && Elements(base) == Elements(old(base))
      ensures forall i :: 0 <= i <= d ==> base[i] == old(base)[i]
      ensures forall i :: d < i < |base| ==> base[i] == old(base)[|base| + d - i]
    {
      var n := |base|;
      ghost var before := base;
      var right, left := n - 1, d + 1;
      while right > left
        invariant d < left && right < n && left + right == n + d && left <= right + 2
        invariant |base| == n && Elements(base) == Elements(before)
        invariant forall i :: 0 <= i < n && (d < i < left || right < i) ==> base[i] == before[n + d - i]
        invariant forall i :: 0 <= i < n && (i <= d || left <= i <= right) ==> base[i] == before[i]
      {
        Swap(right, left);
        right := right - 1;
        left := left + 1;
      }
    }

    /** The call operator. A vector of one element makes the source read before its first
        element on the second call, which is the one case a caller must avoid. */
    method Next() returns (result: seq<int>)
      requires Valid() && |base| != 1
      modifies this
      ensures Valid()
      ensures old(base) == [] && size <= 0 ==> result == [] && base == []
      ensures old(base) == [] && size > 0 ==> result == base && |base| == size && Rank(base) == 0
      ensures old(base) != [] && Rank(old(base)) + 1 == Arrangements(size) ==> result == [] && base == old(base)
      ensures old(base) != [] && Rank(old(base)) + 1 != Arrangements(size) ==>
                result == base != [] && Rank(base) == Rank(old(base)) + 1 && LexLess(old(base), base)
    {
      if |base| == 0 {
        Fill();
        return base;
      }

      hide Rank, Arrangements, Elements, LexLess;
      ghost var b := base;
      var exhausted := Successor();
      if exhausted {
        return [];
      }
      RankBound(base);
      SamePermutation(b, base, size);
      return base;
    }

    /** Turns base into the next permutation of its elements, unless it is the last. */
    method Successor() returns (exhausted: bool)
      requires |base| >= 2 && Distinct(base)
      modifies this
      ensures exhausted ==> base == old(base) && Rank(base) + 1 == Arrangements(|base|)
      ensures !exhausted ==> |base| == |old(base)| && Distinct(base) && Elements(base) == Elements(old(base))
      ensures !exhausted ==> Rank(base) == Rank(old(base)) + 1 && LexLess(old(base), base)
    {
      hide Rank, Arrangements, Elements, LexLess, Distinct, Descending, Ascending;
      ghost var b := base;
      var d;
      d, exhausted := FindDecrease();
      if exhausted {
        return;
      }
      var j := FindNextLarger(d);
      Swap(d, j);
      ReverseSuffix(d);
      ReversedRun(b, d, j, base);
      StepIsSuccessor(b, d, j, base);
    }

    /** Walks left from the next to last position over the descending suffix. */
    method FindDecrease() returns (d: nat, exhausted: bool)
      requires |base| >= 2 && Distinct(base)
      ensures exhausted ==> Rank(base) + 1 == Arrangements(|base|)
      ensures !exhausted ==> d + 1 < |base| && base[d] < base[d + 1] && Descending(base[d + 1..])
    {
      var n := |base|;
      assert Descending(base[n - 1..]);
      hide Rank, Arrangements, Descending;
      d := n - 2;
      while d >= 0 && base[d] > base[d + 1]
        invariant 0 <= d <= n - 2
        invariant Descending(base[d + 1..])
      {
        DescendingCons(base, d);
        if d == 0 {
          assert base[0..] == base;
          DescendingRank(base);
          return d, true;
        }
        d := d - 1;
      }
      exhausted := false;
    }

    /** Walks left from the last position to the first element above base[d]. */
    method FindNextLarger(d: nat) returns (j: nat)
      requires d + 1 < |base| && Distinct(base) && base[d] < base[d + 1]
      ensures d < j < |base| && base[d] < base[j]
      ensures forall i :: j < i < |base| ==> base[i] < base[d]
    {
      j := |base| - 1;
      while base[j] < base[d]
        decreases j
        invariant d < j < |base|
        invariant forall i :: j < i < |base| ==> base[i] < base[d]
      {
        j := j - 1;
      }
    }
  }

  lemma SwapElements(s: seq<int>, i: nat, j: nat)
    requires i < |s| && j < |s|
    ensures Elements(s[i := s[j]][j := s[i]]) == Elements(s)
  {
    var t := s[i := s[j]][j := s[i]];
    forall x | x in s
      ensures x in t
    {
      var k :| 0 <= k < |s| && s[k] == x;
      assert t[if k == i then j else if k == j then i else k] == x;
    }
  }

  lemma DescendingCons(s: seq<int>, d: nat)
    requires d + 1 < |s| && Descending(s[d + 1..]) && s[d] > s[d + 1]
    ensures Descending(s[d..])
  {
    var t := s[d + 1..];
    assert s[d..] == [s[d]] + t;
    assert forall i :: 0 <= i < |t| ==> t[0] >= t[i];
  }

  lemma SamePermutation(b: seq<int>, r: seq<int>, n: nat)
    requires IsPermutation(b, n) && |r| == |b| && Distinct(r) && Elements(r) == Elements(b)
    ensures IsPermutation(r, n)
  {
    forall x
      ensures x in r <==> 1 <= x <= n
    {
      assert x in r <==> x in Elements(r);
      assert x in b <==> x in Elements(b);
    }
  }

  // ---------------------------------------------------------------- whole runs

  /** The loop of main: call the generator until it returns an empty vector. The count of
      results meets the announced factorial exactly when n is at least 2; for n == 0 the
      very first call already returns an empty vector although 0! == 1 is announced. */
  method Enumerate(n: nat)
    returns (results: seq<seq<int>>, expected: nat, generator: PermutationGenerator)
    requires n != 1
    ensures expected == Factorial(n)
    ensures |results| == expected <==> n >= 2
    ensures n == 0 ==> results == []
    ensures forall i :: 0 <= i < |results| ==> IsPermutation(results[i], n) && Rank(results[i]) == i
    ensures generator.Valid() && generator.size == n
    ensures n >= 2 ==> generator.base != [] && Rank(generator.base) + 1 == Arrangements(n)
  {
    expected := Factorial(n);
    FactorialCounts(n);
    generator := new PermutationGenerator(n);
    results := [];
    while true
      invariant generator.Valid() && generator.size == n && fresh(generator)
      invariant forall i :: 0 <= i < |results| ==> IsPermutation(results[i], n) && Rank(results[i]) == i
      invariant generator.base == [] <==> results == []
      invariant generator.base != [] ==> Rank(generator.base) + 1 == |results|
      invariant |results| <= Arrangements(n)
      invariant n == 0 ==> results == []
      decreases Arrangements(n) - |results|
    {
      var result := generator.Next();
      if result == [] {
        break;
      }
      RankBound(generator.base);
      results := results + [result];
    }
  }

  /** A list of n! entries that holds at each index the permutation of that rank holds every
      permutation exactly once, in strictly increasing lexicographic order. */
  lemma EnumerationIsComplete(results: seq<seq<int>>, n: nat, p: seq<int>)
    requires |results| == Factorial(n)
    requires forall i :: 0 <= i < |results| ==> IsPermutation(results[i], n) && Rank(results[i]) == i
    requires IsPermutation(p, n)
    ensures Rank(p) < |results|
    ensures forall i :: 0 <= i < |results| ==> (results[i] == p <==> i == Rank(p))
    ensures forall i, j :: 0 <= i < j < |results| ==> LexLess(results[i], results[j])
  {
    FactorialCounts(n);
    RankBound(p);
    forall i | 0 <= i < |results|
      ensures results[i] == p <==> i == Rank(p)
    {
      PermutationElements(results[i], p, n);
      RankIsLexicographic(results[i], p);
    }
    forall i, j | 0 <= i < j < |results|
      ensures LexLess(results[i], results[j])
    {
      PermutationElements(results[i], results[j], n);
      RankIsLexicographic(results[i], results[j]);
    }
  }
}

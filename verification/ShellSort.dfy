/** The Shell sort of the template-method example
    (design_patterns_eplained_simply/behavioral_design_patterns/template_method_design_pattern.cpp):
    each pass orders its own gap and keeps the order of every gap before it. */
module ShellSort {

  /** The two derived classes: SortUp and SortDown */
  datatype Order = Up | Down

  predicate NeedSwap(order: Order, a: int, b: int) {
    if order.Up? then a > b else a < b
  }

  ghost predicate InOrder(order: Order, a: int, b: int) {
    !NeedSwap(order, a, b)
  }

  /** Elements a gap apart are in order. */
  ghost predicate Ordered(order: Order, s: seq<int>, g: nat) {
    forall k, l :: 0 <= k < l < |s| && l == k + g ==> InOrder(order, s[k], s[l])
  }

  ghost predicate Sorted(order: Order, s: seq<int>) {
    forall k, l :: 0 <= k < l < |s| ==> InOrder(order, s[k], s[l])
  }

  /** How many of the elements at i, i - g, i - 2g, ... are in order before x */
  ghost function CountBefore(order: Order, s: seq<int>, g: nat, i: int, x: int): nat
    requires g > 0 && i < |s|
    decreases i + g
  {
    if i < 0 then 0
    else CountBefore(order, s, g, i - g, x) + if InOrder(order, s[i], x) then 1 else 0
  }

  /** How many positions i, i - g, i - 2g, ... there are */
  ghost function ChainLength(g: nat, i: int): nat
    requires g > 0
    decreases i + g
  {
    if i < 0 then 0 else ChainLength(g, i - g) + 1
  }

  /** The position m steps of g after i */
  ghost function Ahead(i: int, m: nat, g: nat): (j: int)
    ensures j >= i
  {
    if m == 0 then i else Ahead(i, m - 1, g) + g
  }

  /** The chains of elements a gap apart hold the same elements. A chain is named by its last
      position. */
  ghost predicate SameChains(order: Order, s: seq<int>, s': seq<int>, g: nat)
    requires g > 0 && |s| == |s'|
  {
    forall i, x :: |s| - g <= i < |s| ==> CountBefore(order, s', g, i, x) == CountBefore(order, s, g, i, x)
  }

  // ---------------------------------------------------------------- counting along a chain

  lemma {:induction false} CountIsAtMostLength(order: Order, s: seq<int>, g: nat, i: int, x: int)
    requires g > 0 && i < |s|
    ensures CountBefore(order, s, g, i, x) <= ChainLength(g, i)
    decreases i + g
  {
    if i >= 0 {
      CountIsAtMostLength(order, s, g, i - g, x);
    }
  }

  lemma {:induction false} CountGrows(order: Order, s: seq<int>, g: nat, i: int, m: nat, x: int)
    requires g > 0 && Ahead(i, m, g) < |s|
    ensures i < |s| && CountBefore(order, s, g, i, x) <= CountBefore(order, s, g, Ahead(i, m, g), x)
    decreases m
  {
    if m > 0 {
      CountGrows(order, s, g, i, m - 1, x);
    }
  }

  /** An ordered chain up to an element before x counts completely. */
  lemma {:induction false} AllBefore(order: Order, s: seq<int>, g: nat, i: int, x: int)
    requires g > 0 && i < |s| && Ordered(order, s, g)
    requires i >= 0 ==> InOrder(order, s[i], x)
    ensures CountBefore(order, s, g, i, x) == ChainLength(g, i)
    decreases i + g
  {
    if i >= 0 {
      AllBefore(order, s, g, i - g, x);
    }
  }

  /** From an element after x on, an ordered chain counts nothing more. */
  lemma {:induction false} NoneAfter(order: Order, s: seq<int>, g: nat, k: nat, m: nat, x: int)
    requires g > 0 && Ahead(k, m, g) < |s| && Ordered(order, s, g)
    requires !InOrder(order, s[k], x)
    ensures CountBefore(order, s, g, Ahead(k, m, g), x) == CountBefore(order, s, g, k - g, x)
    ensures !InOrder(order, s[Ahead(k, m, g)], x)
    decreases m
  {
    if m > 0 {
      NoneAfter(order, s, g, k, m - 1, x);
      assert InOrder(order, s[Ahead(k, m - 1, g)], s[Ahead(k, m, g)]);
    }
  }

  /** In a sequence ordered for gap h, the chain shifted by h counts at most the additional
      positions more. */
  lemma {:induction false} ShiftedCount(order: Order, s: seq<int>, g: nat, h: nat, i: int, x: int)
    requires g > 0 && h > 0 && i + h < |s| && Ordered(order, s, h)
    ensures CountBefore(order, s, g, i + h, x) + ChainLength(g, i) <=
      CountBefore(order, s, g, i, x) + ChainLength(g, i + h)
    decreases i + g + h
  {
    if i < 0 {
      CountIsAtMostLength(order, s, g, i + h, x);
    } else {
      ShiftedCount(order, s, g, h, i - g, x);
      assert InOrder(order, s[i], s[i + h]);
    }
  }

  lemma {:induction false} LengthGrows(g: nat, i: nat, m: nat)
    requires g > 0
    ensures ChainLength(g, Ahead(i, m, g)) == ChainLength(g, i) + m
    decreases m
  {
    if m > 0 {
      LengthGrows(g, i, m - 1);
    }
  }

  /** The last position of the chain through k */
  lemma ChainEnd(g: nat, n: nat, k: nat) returns (m: nat)
    requires g > 0 && k < n
    ensures n - g <= Ahead(k, m, g) < n
  {
    m := 0;
    while Ahead(k, m, g) + g < n
      invariant Ahead(k, m, g) < n
      decreases n - (Ahead(k, m, g))
    {
      m := m + 1;
    }
  }

  // ---------------------------------------------------------------- a pass keeps earlier gaps

  /** Ordering the chains of one gap keeps the order of any other gap. */
  lemma PassKeepsGap(order: Order, s: seq<int>, s': seq<int>, g: nat, h: nat)
    requires g > 0 && h > 0 && |s| == |s'|
    requires Ordered(order, s, h) && Ordered(order, s', g) && SameChains(order, s, s', g)
    ensures Ordered(order, s', h)
  {
    forall k, l | 0 <= k < l < |s'| && l == k + h
      ensures InOrder(order, s'[k], s'[l])
    {
      PairStaysInOrder(order, s, s', g, h, k);
    }
  }

  lemma PairStaysInOrder(order: Order, s: seq<int>, s': seq<int>, g: nat, h: nat, k: nat)
    requires g > 0 && h > 0 && |s| == |s'| && k + h < |s|
    requires Ordered(order, s, h) && Ordered(order, s', g) && SameChains(order, s, s', g)
    ensures InOrder(order, s'[k], s'[k + h])
  {
    hide CountBefore, ChainLength, Ordered;
    var n, x := |s|, s'[k + h];
    var b := ChainEnd(g, n, k + h);
    var a := ChainEnd(g, n, k);
    var lastB, lastA := Ahead(k + h, b, g), Ahead(k, a, g);
    // At least as many elements of the upper chain are before x as lie up to k + h,
    AllBefore(order, s', g, k + h, x);
    CountGrows(order, s', g, k + h, b, x);
    // hence the lower chain has at least as many before x as lie up to k,
    ShiftedCount(order, s, g, h, lastB - h, x);
    LengthGrows(g, k + h, b);
    LengthGrows(g, k, b);
    AheadShift(k, h, b, g);
    EndIsLater(g, n, k, a, b);
    AheadAdd(k, b, a - b, g);
    CountGrows(order, s, g, Ahead(k, b, g), a - b, x);
    assert CountBefore(order, s', g, lastA, x) >= ChainLength(g, k);
    // and the one at k is among them.
    if !InOrder(order, s'[k], x) {
      NoneAfter(order, s', g, k, a, x);
      LengthStep(g, k);
      CountIsAtMostLength(order, s', g, k - g, x);
      assert false;
    }
  }

  lemma {:induction false} AheadAdd(i: int, a: nat, b: nat, g: nat)
    ensures Ahead(Ahead(i, a, g), b, g) == Ahead(i, a + b, g)
  {
    if b > 0 {
      AheadAdd(i, a, b - 1, g);
    }
  }

  lemma {:induction false} AheadShift(i: int, h: int, m: nat, g: nat)
    ensures Ahead(i + h, m, g) == Ahead(i, m, g) + h
  {
    if m > 0 {
      AheadShift(i, h, m - 1, g);
    }
  }

  lemma {:induction false} AheadIncreases(k: int, a: nat, b: nat, g: nat)
    ensures a < b ==> Ahead(k, a, g) + g <= Ahead(k, b, g)
  {
    if b > 0 {
      AheadIncreases(k, a, b - 1, g);
    }
  }

  lemma EndIsLater(g: nat, n: nat, k: nat, a: nat, b: nat)
    requires g > 0 && n - g <= Ahead(k, a, g) && Ahead(k, b, g) < n
    ensures b <= a
  {
    AheadIncreases(k, a, b, g);
  }

  lemma LengthStep(g: nat, k: nat)
    requires g > 0
    ensures ChainLength(g, k) == ChainLength(g, k - g) + 1
  {
  }

  // ---------------------------------------------------------------- swaps

  lemma CountStep(order: Order, s: seq<int>, g: nat, i: nat, x: int)
    requires g > 0 && i < |s|
    ensures CountBefore(order, s, g, i, x) ==
      CountBefore(order, s, g, i - g, x) + if InOrder(order, s[i], x) then 1 else 0
  {
  }

  /** A swap of two elements a gap apart changes no count that starts above both. */
  lemma {:induction false} SwapKeepsCount(order: Order, s: seq<int>, g: nat, j: nat, i: int, x: int)
    requires g > 0 && j + g < |s| && i < |s| && i != j
    ensures CountBefore(order, s[j := s[j + g]][j + g := s[j]], g, i, x) == CountBefore(order, s, g, i, x)
    decreases i + g
  {
    if i == j + g {
      SwapKeepsCount(order, s, g, j, j - g, x);
      CountStep(order, s, g, j, x);
      CountStep(order, s[j := s[j + g]][j + g := s[j]], g, j, x);
    } else if i >= 0 {
      SwapKeepsCount(order, s, g, j, i - g, x);
    }
  }

  lemma SwapKeepsChains(order: Order, s0: seq<int>, s: seq<int>, g: nat, j: nat)
    requires g > 0 && j + g < |s| == |s0| && SameChains(order, s0, s, g)
    ensures SameChains(order, s0, s[j := s[j + g]][j + g := s[j]], g)
  {
    var t := s[j := s[j + g]][j + g := s[j]];
    forall i, x | |s| - g <= i < |s|
      ensures CountBefore(order, t, g, i, x) == CountBefore(order, s0, g, i, x)
    {
      SwapKeepsCount(order, s, g, j, i, x);
    }
  }

  // ---------------------------------------------------------------- the sort

  /** The gaps of a sort that starts with gap g */
  ghost function Gaps(g: nat): set<nat> {
    if g == 0 then {} else {g} + Gaps(g / 2)
  }

  /** Ordered for gap g up to position i, except that position j may not be in order with
      the position a gap after it */
  ghost predicate OrderedExcept(order: Order, s: seq<int>, g: nat, i: int, j: int)
    requires i <= |s|
  {
    && (forall k, l :: 0 <= k < l < i && l == k + g && k != j ==> InOrder(order, s[k], s[l]))
    && (forall k, l :: 0 <= k == j && l == k + g + g && l < i ==> InOrder(order, s[k], s[l]))
  }

  method DoSwap(v: array<int>, a: nat, b: nat)
    requires a < v.Length && b < v.Length && a != b
    modifies v
    ensures v[..] == old(v[..])[a := old(v[b])][b := old(v[a])]
  {
    var t := v[a];
    v[a] := v[b];
    v[b] := t;
  }

  /** The innermost loop: the element at i is carried down its chain. */
  method Insert(order: Order, v: array<int>, g: nat, i: nat)
    requires 0 < g <= i < v.Length
    requires OrderedExcept(order, v[..], g, i, -1)
    modifies v
    ensures OrderedExcept(order, v[..], g, i + 1, -1)
    ensures multiset(v[..]) == multiset(old(v[..])) && SameChains(order, old(v[..]), v[..], g)
  {
    hide SameChains, OrderedExcept, InOrder;
    ghost var s0 := v[..];
    SameAsItself(order, s0, g);
    ExceptionBegins(order, s0, g, i);
    var j: int := i - g;
    while j >= 0
      invariant 0 <= j + g <= i
      invariant OrderedExcept(order, v[..], g, i + 1, j)
      invariant multiset(v[..]) == multiset(s0) && SameChains(order, s0, v[..], g)
      decreases j + g
    {
      ghost var s := v[..];
      if NeedSwap(order, v[j], v[j + g]) {
        SwapKeepsChains(order, s0, s, g, j);
        DoSwap(v, j, j + g);
      }
      ExceptionMoves(order, s, v[..], g, i + 1, j);
      j := j - g;
    }
    NoException(order, v[..], g, i + 1, j);
  }

  lemma ExceptionMoves(order: Order, s: seq<int>, t: seq<int>, g: nat, i: nat, j: nat)
    requires g > 0 && j + g < i <= |s| && OrderedExcept(order, s, g, i, j)
    requires t == if NeedSwap(order, s[j], s[j + g]) then s[j := s[j + g]][j + g := s[j]] else s
    ensures OrderedExcept(order, t, g, i, j - g)
  {
  }

  lemma SameAsItself(order: Order, s: seq<int>, g: nat)
    requires g > 0
    ensures SameChains(order, s, s, g)
  {
  }

  lemma ExceptionBegins(order: Order, s: seq<int>, g: nat, i: nat)
    requires 0 < g <= i < |s| && OrderedExcept(order, s, g, i, -1)
    ensures OrderedExcept(order, s, g, i + 1, i - g)
  {
  }

  lemma NoException(order: Order, s: seq<int>, g: nat, i: nat, j: int)
    requires j < 0 && i <= |s| && OrderedExcept(order, s, g, i, j)
    ensures OrderedExcept(order, s, g, i, -1)
  {
  }

  /** The middle loop, over one gap */
  method Pass(order: Order, v: array<int>, g: nat)
    requires g > 0
    modifies v
    ensures Ordered(order, v[..], g)
    ensures forall h :: h > 0 && Ordered(order, old(v[..]), h) ==> Ordered(order, v[..], h)
    ensures multiset(v[..]) == multiset(old(v[..])) && SameChains(order, old(v[..]), v[..], g)
  {
    ghost var s0 := v[..];
    var i := g;
    while i < v.Length
      invariant g <= i && (i <= v.Length || v[..] == s0)
      invariant OrderedExcept(order, v[..], g, if i <= v.Length then i else v.Length, -1)
      invariant multiset(v[..]) == multiset(s0) && SameChains(order, s0, v[..], g)
    {
      ghost var s := v[..];
      Insert(order, v, g, i);
      ChainsCompose(order, s0, s, v[..], g);
      i := i + 1;
    }
    forall h | h > 0 && Ordered(order, s0, h)
      ensures Ordered(order, v[..], h)
    {
      PassKeepsGap(order, s0, v[..], g, h);
    }
  }

  lemma ChainsCompose(order: Order, a: seq<int>, b: seq<int>, c: seq<int>, g: nat)
    requires g > 0 && |a| == |b| == |c| && SameChains(order, a, b, g) && SameChains(order, b, c, g)
    ensures SameChains(order, a, c, g)
  {
  }

  /** Sorts v, and leaves it ordered for every gap it used. */
  method Sort(order: Order, v: array<int>)
    modifies v
    ensures order.Up? ==> forall k, l :: 0 <= k < l < v.Length ==> v[k] <= v[l]
    ensures order.Down? ==> forall k, l :: 0 <= k < l < v.Length ==> v[k] >= v[l]
    ensures multiset(v[..]) == multiset(old(v[..]))
    ensures forall h :: h in Gaps(v.Length / 2) ==> Ordered(order, v[..], h)
  {
    var g: nat := v.Length / 2;
    ghost var done: set<nat> := {};
    while g > 0
      invariant Gaps(v.Length / 2) == done + Gaps(g)
      invariant forall h :: h in done ==> h > 0 && Ordered(order, v[..], h)
      invariant multiset(v[..]) == multiset(old(v[..]))
      invariant g == 0 && v.Length >= 2 ==> 1 in done
      invariant g <= v.Length / 2 && (v.Length >= 2 && done == {} ==> g >= 1)
    {
      Pass(order, v, g);
      done := done + {g};
      g := g / 2;
    }
    if v.Length >= 2 {
      GapOneSorts(order, v[..]);
    }
  }

  lemma {:induction false} GapOneSorts(order: Order, s: seq<int>)
    requires Ordered(order, s, 1)
    ensures Sorted(order, s)
    ensures order.Up? ==> forall k, l :: 0 <= k < l < |s| ==> s[k] <= s[l]
    ensures order.Down? ==> forall k, l :: 0 <= k < l < |s| ==> s[k] >= s[l]
  {
    if |s| > 0 {
      var t := s[..|s| - 1];
      GapOneSorts(order, t);
      forall k, l | 0 <= k < l < |s|
        ensures InOrder(order, s[k], s[l])
      {
        assert InOrder(order, s[l - 1], s[l]);
        if l == |s| - 1 && k < l - 1 {
          assert InOrder(order, t[k], t[l - 1]);
        } else if l < |s| - 1 {
          assert InOrder(order, t[k], t[l]);
        }
      }
    }
  }
}

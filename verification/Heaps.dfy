/** Order and contents of a 1-based binary heap held in a sequence. Slot 0 is unused. */
module Heaps {

  /** cmp is a total preorder on the domain: a positive result puts its first argument closer
      to the root. */
  ghost predicate Preorder<T>(cmp: (T, T) -> int, domain: iset<T>) {
    && (forall x, y :: x in domain && y in domain ==> (cmp(x, y) >= 0 <==> cmp(y, x) <= 0))
    && (forall x, y, z :: x in domain && y in domain && z in domain && cmp(x, y) >= 0 && cmp(y, z) >= 0 ==>
      cmp(x, z) >= 0)
  }

  ghost predicate Within<T>(h: seq<T>, n: nat, domain: iset<T>) {
    n < |h| && forall k :: 1 <= k <= n ==> h[k] in domain
  }

  ghost predicate Edge<T>(cmp: (T, T) -> int, h: seq<T>, k: nat)
    requires k < |h|
  {
    cmp(h[k / 2], h[k]) >= 0
  }

  ghost predicate Ordered<T>(cmp: (T, T) -> int, h: seq<T>, n: nat)
    requires n < |h|
  {
    forall k :: 2 <= k <= n ==> Edge(cmp, h, k)
  }

  /** In order except at slot i, whose parent and children are in order with each other */
  ghost predicate OrderedAround<T>(cmp: (T, T) -> int, h: seq<T>, n: nat, i: nat)
    requires n < |h| && 1 <= i <= n
  {
    && (forall k :: 2 <= k <= n && k != i && k / 2 != i ==> Edge(cmp, h, k))
    && (forall k :: 2 <= k <= n && k / 2 == i && i >= 2 ==> cmp(h[i / 2], h[k]) >= 0)
  }

  ghost predicate UpperEdge<T>(cmp: (T, T) -> int, h: seq<T>, i: nat)
    requires i < |h|
  {
    i >= 2 ==> Edge(cmp, h, i)
  }

  ghost predicate LowerEdges<T>(cmp: (T, T) -> int, h: seq<T>, n: nat, i: nat)
    requires n < |h|
  {
    forall k :: 2 <= k <= n && k / 2 == i ==> Edge(cmp, h, k)
  }

  ghost function Contents<T>(h: seq<T>, n: nat): multiset<T>
    requires n < |h|
  {
    multiset(h[1..n + 1])
  }

  ghost predicate Distinct<T>(h: seq<T>, n: nat)
    requires n < |h|
  {
    forall i, j :: 1 <= i < j <= n ==> h[i] != h[j]
  }

  /** The elements are distinct, the index reported for each is its slot, and only queued
      objects have one; except possibly for the element of slot i. */
  ghost predicate Tracked<T>(h: seq<T>, n: nat, index: map<T, nat>, i: nat)
    requires n < |h|
  {
    && Distinct(h, n)
    && (forall k :: 1 <= k <= n && k != i ==> h[k] in index && index[h[k]] == k)
    && (forall o :: o in index && index[o] != 0 && (i == 0 || i >= |h| || o != h[i]) ==>
      index[o] <= n && h[index[o]] == o)
  }

  ghost function Swapped<T>(h: seq<T>, i: nat, j: nat): (s: seq<T>)
    requires i < |h| && j < |h|
    ensures |s| == |h|
  {
    h[i := h[j]][j := h[i]]
  }

  lemma SwapKeepsContents<T>(h: seq<T>, n: nat, i: nat, j: nat)
    requires 1 <= i <= n < |h| && 1 <= j <= n && i != j
    ensures Contents(Swapped(h, i, j), n) == Contents(h, n)
    ensures Distinct(Swapped(h, i, j), n) <==> Distinct(h, n)
  {
    var a, s := h[1..n + 1], Swapped(h, i, j)[1..n + 1];
    assert s == a[i - 1 := a[j - 1]][j - 1 := a[i - 1]];
    DistinctByContents(h, Swapped(h, i, j), n);
  }

  lemma MultiplicityOne<T>(a: seq<T>)
    ensures (forall i, j :: 0 <= i < j < |a| ==> a[i] != a[j]) <==> forall x :: x in a ==> multiset(a)[x] == 1
  {
    if |a| > 0 {
      var k := |a| - 1;
      MultiplicityOne(a[..k]);
      assert a == a[..k] + [a[k]];
      if forall i, j :: 0 <= i < j < |a| ==> a[i] != a[j] {
        assert forall i, j :: 0 <= i < j < k ==> a[..k][i] != a[..k][j];
        forall x | x in a
          ensures multiset(a)[x] == 1
        {
          if x == a[k] {
            assert x !in a[..k];
          } else {
            assert x in a[..k];
          }
        }
      }
      if forall x :: x in a ==> multiset(a)[x] == 1 {
        forall i, j | 0 <= i < j < |a|
          ensures a[i] != a[j]
        {
          if j == k {
            assert multiset(a)[a[k]] == 1;
            assert a[k] !in multiset(a[..k]);
            assert a[..k][i] in a[..k];
          } else {
            forall x | x in a[..k]
              ensures multiset(a[..k])[x] == 1
            {
              assert x in a;
              assert multiset(a)[x] == 1;
              assert x in multiset(a[..k]);
            }
            assert a[..k][i] != a[..k][j];
          }
        }
      }
    }
  }

  lemma DistinctSlice<T>(h: seq<T>, n: nat)
    requires n < |h|
    ensures Distinct(h, n) <==> var m := multiset(h[1..n + 1]); forall x :: x in m ==> m[x] == 1
  {
    var a := h[1..n + 1];
    MultiplicityOne(a);
    assert forall i :: 1 <= i <= n ==> h[i] == a[i - 1];
    assert forall i :: 0 <= i < n ==> a[i] == h[i + 1];
  }

  lemma DistinctByContents<T>(h: seq<T>, g: seq<T>, n: nat)
    requires n < |h| && n < |g| && Contents(h, n) == Contents(g, n)
    ensures Distinct(h, n) <==> Distinct(g, n)
  {
    DistinctSlice(h, n);
    DistinctSlice(g, n);
  }

  // ---------------------------------------------------------------- sifting

  lemma UpStep<T>(cmp: (T, T) -> int, domain: iset<T>, h: seq<T>, n: nat, i: nat)
    requires Preorder(cmp, domain) && Within(h, n, domain)
    requires 2 <= i <= n && OrderedAround(cmp, h, n, i)
    requires cmp(h[i / 2], h[i]) <= 0
    ensures var g := Swapped(h, i, i / 2);
      OrderedAround(cmp, g, n, i / 2) && LowerEdges(cmp, g, n, i / 2) && Within(g, n, domain)
  {
    var p, g := i / 2, Swapped(h, i, i / 2);
    forall k | 2 <= k <= n && k / 2 == p
      ensures Edge(cmp, g, k) && (p >= 2 ==> cmp(g[p / 2], g[k]) >= 0)
    {
      UpStepAtChild(cmp, domain, h, n, i, k);
    }
    forall k | 2 <= k <= n && k != p && k / 2 != p
      ensures Edge(cmp, g, k)
    {
      UpStepElsewhere(cmp, h, n, i, k);
    }
  }

  lemma UpStepAtChild<T>(cmp: (T, T) -> int, domain: iset<T>, h: seq<T>, n: nat, i: nat, k: nat)
    requires Preorder(cmp, domain) && Within(h, n, domain)
    requires 2 <= i <= n && OrderedAround(cmp, h, n, i) && cmp(h[i / 2], h[i]) <= 0
    requires 2 <= k <= n && k / 2 == i / 2
    ensures var p, g := i / 2, Swapped(h, i, i / 2);
      Edge(cmp, g, k) && (p >= 2 ==> cmp(g[p / 2], g[k]) >= 0)
  {
    var p := i / 2;
    if p >= 2 {
      assert Edge(cmp, h, p);
    }
    if k != i {
      assert Edge(cmp, h, k);
    }
  }

  lemma UpStepElsewhere<T>(cmp: (T, T) -> int, h: seq<T>, n: nat, i: nat, k: nat)
    requires n < |h| && 2 <= i <= n && OrderedAround(cmp, h, n, i)
    requires 2 <= k <= n && k != i / 2 && k / 2 != i / 2
    ensures Edge(cmp, Swapped(h, i, i / 2), k)
  {
    if k / 2 != i {
      assert Edge(cmp, h, k);
    }
  }

  lemma DownStep<T>(cmp: (T, T) -> int, domain: iset<T>, h: seq<T>, n: nat, i: nat, c: nat)
    requires Preorder(cmp, domain) && Within(h, n, domain)
    requires 1 <= i && c <= n && c / 2 == i && OrderedAround(cmp, h, n, i)
    requires UpperEdge(cmp, h, i)
    requires forall k :: 2 <= k <= n && k / 2 == i ==> cmp(h[c], h[k]) >= 0
    requires cmp(h[i], h[c]) < 0
    ensures var g := Swapped(h, i, c);
      OrderedAround(cmp, g, n, c) && UpperEdge(cmp, g, c) && Within(g, n, domain)
  {
    var g := Swapped(h, i, c);
    forall k | 2 <= k <= n && k != c && k / 2 != c
      ensures Edge(cmp, g, k)
    {
      if k == i {
        assert cmp(h[i / 2], h[c]) >= 0;
      } else if k / 2 != i {
        assert Edge(cmp, h, k);
      }
    }
    forall k | 2 <= k <= n && k / 2 == c
      ensures cmp(g[c / 2], g[k]) >= 0
    {
      assert Edge(cmp, h, k);
    }
  }

  lemma Settled<T>(cmp: (T, T) -> int, h: seq<T>, n: nat, i: nat)
    requires 1 <= i <= n < |h| && OrderedAround(cmp, h, n, i)
    requires UpperEdge(cmp, h, i) && LowerEdges(cmp, h, n, i)
    ensures Ordered(cmp, h, n)
  {
  }

  /** Nothing precedes the root. */
  lemma {:induction false} RootIsFirst<T>(cmp: (T, T) -> int, domain: iset<T>, h: seq<T>, n: nat, k: nat)
    requires Preorder(cmp, domain) && Within(h, n, domain) && Ordered(cmp, h, n)
    requires 1 <= k <= n
    ensures cmp(h[1], h[k]) >= 0
  {
    if k >= 2 {
      RootIsFirst(cmp, domain, h, n, k / 2);
      assert Edge(cmp, h, k);
    }
  }

  /** Replacing the element of slot i disturbs the order around slot i only. */
  lemma ReplaceDisturbs<T>(cmp: (T, T) -> int, domain: iset<T>, h: seq<T>, n: nat, i: nat, x: T)
    requires Preorder(cmp, domain) && Within(h, n, domain) && Ordered(cmp, h, n)
    requires 1 <= i <= n && x in domain
    ensures OrderedAround(cmp, h[i := x], n, i) && Within(h[i := x], n, domain)
  {
    var g := h[i := x];
    forall k | 2 <= k <= n && k != i && k / 2 != i
      ensures Edge(cmp, g, k)
    {
      assert Edge(cmp, h, k);
    }
    forall k | 2 <= k <= n && k / 2 == i && i >= 2
      ensures cmp(g[i / 2], g[k]) >= 0
    {
      assert Edge(cmp, h, k) && Edge(cmp, h, i);
    }
  }

  // ---------------------------------------------------------------- a sift with its bookkeeping

  /** What holds between the steps of a sift: h has the sifted element in slot i. */
  ghost predicate Sifting<T>(cmp: (T, T) -> int, domain: iset<T>, h: seq<T>, n: nat, i: nat,
                             contents: multiset<T>, index: map<T, nat>, tracked: bool)
  {
    && Preorder(cmp, domain)
    && Within(h, n, domain)
    && 1 <= i <= n
    && OrderedAround(cmp, h, n, i)
    && Contents(h, n) == contents
    && (tracked ==> Tracked(h, n, index, i))
  }

  lemma TrackSwap<T>(h: seq<T>, n: nat, index: map<T, nat>, i: nat, j: nat)
    requires 1 <= i <= n < |h| && 1 <= j <= n && i != j && Tracked(h, n, index, i)
    ensures Tracked(Swapped(h, i, j), n, index[h[j] := i], j)
  {
    SwapKeepsContents(h, n, i, j);
  }

  lemma TrackEnd<T>(h: seq<T>, n: nat, index: map<T, nat>, i: nat)
    requires 1 <= i <= n < |h| && Tracked(h, n, index, i)
    ensures Tracked(h, n, index[h[i] := i], 0) && Tracked(h, n, index[h[i] := i], i)
  {
  }

  lemma SiftUp<T>(cmp: (T, T) -> int, domain: iset<T>, h: seq<T>, n: nat, i: nat, contents: multiset<T>,
          index: map<T, nat>, tracked: bool)
    requires Sifting(cmp, domain, h, n, i, contents, index, tracked)
    requires i >= 2 && cmp(h[i / 2], h[i]) <= 0
    ensures var g := Swapped(h, i, i / 2);
      && Sifting(cmp, domain, g, n, i / 2, contents, index[h[i / 2] := i], tracked)
      && LowerEdges(cmp, g, n, i / 2)
  {
    UpStep(cmp, domain, h, n, i);
    SwapKeepsContents(h, n, i, i / 2);
    if tracked {
      TrackSwap(h, n, index, i, i / 2);
    }
  }

  lemma SiftDown<T>(cmp: (T, T) -> int, domain: iset<T>, h: seq<T>, n: nat, i: nat, c: nat, contents: multiset<T>,
          index: map<T, nat>, tracked: bool)
    requires Sifting(cmp, domain, h, n, i, contents, index, tracked) && UpperEdge(cmp, h, i)
    requires c <= n && c / 2 == i && cmp(h[i], h[c]) < 0
    requires forall k :: 2 <= k <= n && k / 2 == i ==> cmp(h[c], h[k]) >= 0
    ensures var g := Swapped(h, i, c);
      && Sifting(cmp, domain, g, n, c, contents, index[h[c] := i], tracked)
      && UpperEdge(cmp, g, c)
  {
    DownStep(cmp, domain, h, n, i, c);
    SwapKeepsContents(h, n, i, c);
    if tracked {
      TrackSwap(h, n, index, i, c);
    }
  }

  /** The child chosen by a sift towards the leaves is in order with both children; when the
      parent is in order with it, it is in order with both. */
  lemma GreaterChild<T>(cmp: (T, T) -> int, domain: iset<T>, h: seq<T>, n: nat, i: nat, c: nat)
    requires Preorder(cmp, domain) && Within(h, n, domain) && 1 <= i && 2 * i <= n
    requires (c == 2 * i && (c < n ==> cmp(h[c], h[c + 1]) >= 0)) || (c == 2 * i + 1 <= n && cmp(h[c - 1], h[c]) < 0)
    ensures forall k :: 2 <= k <= n && k / 2 == i ==> cmp(h[c], h[k]) >= 0
    ensures cmp(h[i], h[c]) >= 0 ==> LowerEdges(cmp, h, n, i)
  {
    assert cmp(h[c], h[c]) >= 0;
  }

  // ---------------------------------------------------------------- growing and shrinking

  lemma Appended<T>(h: seq<T>, n: nat, x: T)
    requires n + 1 < |h|
    ensures Contents(h[n + 1 := x], n + 1) == Contents(h, n) + multiset{x}
  {
    assert h[n + 1 := x][1..n + 2] == h[1..n + 1] + [x];
  }

  /** Taking out slot i and moving the last element there */
  lemma RemovedContents<T>(h: seq<T>, n: nat, i: nat)
    requires 1 <= i <= n < |h|
    ensures Contents(h, n) == Contents(h[i := h[n]], n - 1) + multiset{h[i]}
    ensures Distinct(h, n) ==> Distinct(h[i := h[n]], n - 1)
    ensures i == n ==> Contents(h, n) == Contents(h, n - 1) + multiset{h[i]}
  {
    LastContents(h, n);
    if i < n {
      MovedContents(h, n, i);
    } else {
      assert h[i := h[n]] == h;
    }
    hide Contents;
  }

  lemma LastContents<T>(h: seq<T>, n: nat)
    requires 1 <= n < |h|
    ensures Contents(h, n) == Contents(h, n - 1) + multiset{h[n]}
  {
    assert h[1..n + 1] == h[1..n] + [h[n]];
  }

  lemma MovedContents<T>(h: seq<T>, n: nat, i: nat)
    requires 1 <= i < n < |h|
    ensures Contents(h[i := h[n]], n - 1) + multiset{h[i]} == Contents(h, n - 1) + multiset{h[n]}
  {
    var g := h[i := h[n]];
    assert h[1..n] == h[1..i] + [h[i]] + h[i + 1..n];
    assert g[1..n] == h[1..i] + [h[n]] + h[i + 1..n];
  }

  lemma AppendedIsTracked<T>(h: seq<T>, n: nat, index: map<T, nat>, x: T)
    requires n + 1 < |h| && Tracked(h, n, index, 0) && x !in Contents(h, n)
    ensures Tracked(h[n + 1 := x], n + 1, index, n + 1)
  {
    forall k | 1 <= k <= n
      ensures h[k] != x
    {
      assert h[1..n + 1][k - 1] == h[k];
    }
  }

  lemma AppendStarts<T>(cmp: (T, T) -> int, domain: iset<T>, h: seq<T>, n: nat, x: T, index: map<T, nat>, tracked: bool)
    requires Preorder(cmp, domain) && n + 1 < |h| && Within(h, n, domain) && Ordered(cmp, h, n) && x in domain
    requires tracked ==> Tracked(h, n, index, 0) && x !in Contents(h, n)
    ensures var g := h[n + 1 := x];
      && Sifting(cmp, domain, g, n + 1, n + 1, Contents(h, n) + multiset{x}, index, tracked)
      && LowerEdges(cmp, g, n + 1, n + 1)
  {
    var g := h[n + 1 := x];
    Appended(h, n, x);
    if tracked {
      AppendedIsTracked(h, n, index, x);
    }
    forall k | 2 <= k <= n + 1 && k != n + 1
      ensures Edge(cmp, g, k)
    {
      assert Edge(cmp, h, k);
    }
  }

  lemma RemoveStarts<T>(cmp: (T, T) -> int, domain: iset<T>, h: seq<T>, n: nat, i: nat, index: map<T, nat>,
          tracked: bool)
    requires Preorder(cmp, domain) && Within(h, n, domain) && Ordered(cmp, h, n) && 1 <= i < n
    requires tracked ==> Tracked(h, n, index, 0)
    ensures var g, x := h[i := h[n]], h[n];
      Sifting(cmp, domain, g, n - 1, i, Contents(g, n - 1), index[h[i] := 0][x := i], tracked)
  {
    ReplaceDisturbs(cmp, domain, h, n - 1, i, h[n]);
    if tracked {
      RemoveTracks(h, n, i, index);
    }
    hide Tracked, Ordered, OrderedAround, Preorder, Contents;
  }

  lemma RemoveTracks<T>(h: seq<T>, n: nat, i: nat, index: map<T, nat>)
    requires 1 <= i < n < |h| && Tracked(h, n, index, 0)
    ensures Tracked(h[i := h[n]], n - 1, index[h[i] := 0][h[n] := i], i)
  {
  }

  lemma PrefixOrdered<T>(cmp: (T, T) -> int, h: seq<T>, g: seq<T>, n: nat)
    requires n < |h| && n < |g| && g[..n + 1] == h[..n + 1] && Ordered(cmp, h, n)
    ensures Ordered(cmp, g, n) && Contents(g, n) == Contents(h, n)
  {
    assert g[1..n + 1] == g[..n + 1][1..] && h[1..n + 1] == h[..n + 1][1..];
    forall k | 2 <= k <= n
      ensures Edge(cmp, g, k)
    {
      assert Edge(cmp, h, k);
      assert g[..n + 1][k] == g[k] && g[..n + 1][k / 2] == g[k / 2];
      assert h[..n + 1][k] == h[k] && h[..n + 1][k / 2] == h[k / 2];
    }
  }

  lemma DropLast<T>(cmp: (T, T) -> int, h: seq<T>, n: nat, index: map<T, nat>, tracked: bool)
    requires 1 <= n < |h| && Ordered(cmp, h, n)
    requires tracked ==> Tracked(h, n, index, 0)
    ensures Ordered(cmp, h, n - 1)
    ensures tracked ==> Tracked(h, n - 1, index[h[n] := 0], 0)
  {
  }

  /** Only a queued object has a slot reported for it. */
  lemma ReportedIsQueued<T>(h: seq<T>, n: nat, index: map<T, nat>, o: T)
    requires n < |h| && Tracked(h, n, index, 0) && o in index && index[o] != 0
    ensures o in Contents(h, n)
  {
    assert h[1..n + 1][index[o] - 1] == o;
  }
}

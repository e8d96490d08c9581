/** The priority queue pp_pqueue: a 1-based binary heap that reports every element's slot
    through a callback (paperplane/src/pp_base/pp_named_var.c). */
module PriorityQueue {
  import opened Heaps
  import opened Options

  class Queue<T(==, 0)> {
    const cmp: (T, T) -> int
    /** The objects cmp orders; only these may be inserted. */
    ghost const domain: iset<T>
    var numElem: nat
    var capacity: nat
    var heap: array<T>
    /** What the callback was last told about each object; 0 says it left the queue. */
    var index: map<T, nat>

    ghost predicate Valid()
      reads this, heap
    {
      && Preorder(cmp, domain)
      && capacity >= 1 && numElem <= capacity && heap.Length == capacity + 1
      && Within(heap[..], numElem, domain)
      && Ordered(cmp, heap[..], numElem)
    }

    /** No object is queued twice and the callback was told the slot of each. */
    ghost predicate Indexed()
      reads this, heap
    {
      numElem < heap.Length && Tracked(heap[..], numElem, index, 0)
    }

    ghost function Elements(): multiset<T>
      reads this, heap
    {
      if numElem < heap.Length then Contents(heap[..], numElem) else multiset{}
    }

    constructor (cmp: (T, T) -> int, ghost domain: iset<T>)
      requires Preorder(cmp, domain)
      ensures Valid() && Indexed() && fresh(heap) && Elements() == multiset{} && this.cmp == cmp &&
        this.domain == domain
    {
      this.cmp := cmp;
      this.domain := domain;
      numElem := 0;
      capacity := 32;
      heap := new T[32 + 1];
      index := map[];
    }

    method StoreIndex(obj: T, i: nat)
      modifies this`index
      ensures index == old(index)[obj := i]
    {
      index := index[obj := i];
    }

    /** Moves the element of slot start towards the root. */
    method UpHeap(start: nat, ghost tracked: bool) returns (i: nat)
      requires numElem < heap.Length
      requires Sifting(cmp, domain, heap[..], numElem, start, Elements(), index, tracked)
      modifies heap, this`index
      ensures Sifting(cmp, domain, heap[..], numElem, i, old(Elements()), index, tracked)
      ensures UpperEdge(cmp, heap[..], i) && (tracked ==> Indexed())
      ensures i == start ==> heap[..] == old(heap[..])
      ensures i != start ==> LowerEdges(cmp, heap[..], numElem, i)
    {
      hide Preorder, OrderedAround, Contents, Tracked, LowerEdges;
      i := start;
      var obj := heap[i];
      ghost var view, contents := heap[..], Elements();
      while true
        invariant 1 <= i <= start && view == heap[..][i := obj]
        invariant Sifting(cmp, domain, view, numElem, i, contents, index, tracked)
        invariant i == start ==> view == old(heap[..])
        invariant i != start ==> LowerEdges(cmp, view, numElem, i)
        decreases i
      {
        var newI := i / 2;
        if newI == 0 || cmp(heap[newI], obj) > 0 {
          break;
        }
        SiftUp(cmp, domain, view, numElem, i, contents, index, tracked);
        view := Swapped(view, i, newI);
        heap[i] := heap[newI];
        StoreIndex(heap[i], i);
        i := newI;
      }
      if tracked {
        TrackEnd(view, numElem, index, i);
      }
      heap[i] := obj;
      StoreIndex(obj, i);
      assert heap[..] == view;
    }

    method PickChild(i: nat, ghost view: seq<T>) returns (newI: nat)
      requires Preorder(cmp, domain) && 1 <= i && 2 * i <= numElem < heap.Length
      requires |view| == heap.Length && Within(view, numElem, domain)
      requires forall k :: 0 <= k < |view| && k != i ==> view[k] == heap[k]
      ensures newI <= numElem && newI / 2 == i
      ensures forall k :: 2 <= k <= numElem && k / 2 == i ==> cmp(view[newI], view[k]) >= 0
      ensures cmp(view[i], view[newI]) >= 0 ==> LowerEdges(cmp, view, numElem, i)
    {
      newI := i * 2;
      if newI < numElem && cmp(heap[newI], heap[newI + 1]) < 0 {
        newI := newI + 1;
      }
      GreaterChild(cmp, domain, view, numElem, i, newI);
    }

    /** Moves the element of slot start towards the leaves. */
    method DownHeap(start: nat, ghost tracked: bool)
      requires numElem < heap.Length
      requires Sifting(cmp, domain, heap[..], numElem, start, Elements(), index, tracked)
      requires UpperEdge(cmp, heap[..], start)
      modifies heap, this`index
      ensures Within(heap[..], numElem, domain) && Ordered(cmp, heap[..], numElem)
      ensures Elements() == old(Elements())
      ensures tracked ==> Indexed()
    {
      hide Preorder, Ordered, OrderedAround, Contents, Tracked, LowerEdges;
      var i := start;
      var maxI := numElem / 2;
      var obj := heap[i];
      ghost var view, contents := heap[..], Elements();
      while i <= maxI
        invariant 1 <= i <= numElem && view == heap[..][i := obj]
        invariant Sifting(cmp, domain, view, numElem, i, contents, index, tracked)
        invariant UpperEdge(cmp, view, i)
        decreases numElem - i
      {
        var newI := PickChild(i, view);
        if cmp(obj, heap[newI]) >= 0 {
          break;
        }
        SiftDown(cmp, domain, view, numElem, i, newI, contents, index, tracked);
        view := Swapped(view, i, newI);
        heap[i] := heap[newI];
        StoreIndex(heap[i], i);
        i := newI;
      }
      Settled(cmp, view, numElem, i);
      if tracked {
        TrackEnd(view, numElem, index, i);
      }
      heap[i] := obj;
      StoreIndex(obj, i);
      assert heap[..] == view;
    }

    /** Queues an object; realloc is whether memory for a larger heap is granted. */
    method Insert(obj: T, realloc: bool) returns (err: int)
      requires Valid() && obj in domain
      modifies this, heap
      ensures Valid() && (heap == old(heap) || fresh(heap))
      ensures err == if old(numElem) < old(capacity) || realloc then 0 else -1
      ensures Elements() == if err == 0 then old(Elements()) + multiset{obj} else old(Elements())
      ensures numElem == if err == 0 then old(numElem) + 1 else old(numElem)
      ensures old(Indexed()) && obj !in old(Elements()) ==> Indexed()
    {
      if numElem + 1 > capacity {
        if !realloc {
          return -1;
        }
        Grow();
      }
      Append(obj, old(Indexed()) && obj !in old(Elements()));
      return 0;
    }

    method Append(obj: T, ghost tracked: bool)
      requires Valid() && obj in domain && numElem < capacity
      requires tracked ==> Indexed() && obj !in Elements()
      modifies this`numElem, this`index, heap
      ensures Valid() && numElem == old(numElem) + 1
      ensures Elements() == old(Elements()) + multiset{obj}
      ensures tracked ==> Indexed()
    {
      hide Preorder, Ordered, OrderedAround, Contents, Tracked;
      ghost var before := heap[..];
      AppendStarts(cmp, domain, before, numElem, obj, index, tracked);
      heap[numElem + 1] := obj;
      assert heap[..] == before[numElem + 1 := obj];
      numElem := numElem + 1;
      var i := UpHeap(numElem, tracked);
      Settled(cmp, heap[..], numElem, i);
    }

    method Grow()
      requires Valid()
      modifies this
      ensures Valid() && fresh(heap) && numElem == old(numElem) && capacity == 2 * old(capacity) && index == old(index)
      ensures heap[..old(capacity) + 1] == old(heap[..])
      ensures Elements() == old(Elements())
      ensures Indexed() <==> old(Indexed())
    {
      hide Preorder, Ordered, Contents;
      ghost var before := heap[..];
      var larger := Enlarged();
      assert larger[..][..numElem + 1] == larger[..capacity + 1][..numElem + 1] == before[..numElem + 1];
      PrefixOrdered(cmp, before, larger[..], numElem);
      heap := larger;
      capacity := capacity * 2;
    }

    method Enlarged() returns (larger: array<T>)
      requires heap.Length == capacity + 1
      ensures fresh(larger) && larger.Length == 2 * capacity + 1 && larger[..capacity + 1] == heap[..]
    {
      larger := new T[capacity * 2 + 1];
      forall k | 0 <= k <= capacity {
        larger[k] := heap[k];
      }
    }

    /** Takes out the object in slot pindex. Slot 0 is never initialised, so a caller must not
        ask for it. */
    method Remove(pindex: nat) returns (obj: Option<T>)
      requires Valid() && pindex >= 1
      modifies this, heap
      ensures Valid() && heap == old(heap)
      ensures obj == if pindex <= old(numElem) then Some(old(heap[..])[pindex]) else None
      ensures obj.Some? ==> Elements() + multiset{obj.value} == old(Elements()) && numElem == old(numElem) - 1
      ensures obj.None? ==> Elements() == old(Elements()) && numElem == old(numElem) && index == old(index)
      ensures old(Indexed()) ==> Indexed()
    {
      hide Preorder, Ordered, OrderedAround, Contents, Tracked;
      if pindex > numElem {
        return None;
      }
      ghost var tracked := Indexed();
      RemovedContents(heap[..], numElem, pindex);
      obj := Some(heap[pindex]);
      if pindex < numElem {
        MoveLast(pindex, tracked);
      } else {
        DropLast(cmp, heap[..], numElem, index, tracked);
        StoreIndex(heap[pindex], 0);
        numElem := numElem - 1;
      }
    }

    /** The part of a removal that puts the last object into the gap */
    method MoveLast(pindex: nat, ghost tracked: bool)
      requires Valid() && 1 <= pindex < numElem
      requires tracked ==> Indexed()
      modifies this`numElem, this`index, heap
      ensures Valid() && numElem == old(numElem) - 1
      ensures Elements() == Contents(old(heap[..])[pindex := old(heap[..])[old(numElem)]], numElem)
      ensures tracked ==> Indexed()
    {
      hide Preorder, Ordered, OrderedAround, Contents, Tracked;
      ghost var before, n := heap[..], numElem;
      RemoveStarts(cmp, domain, before, n, pindex, index, tracked);
      StoreIndex(heap[pindex], 0);
      numElem := numElem - 1;
      heap[pindex] := heap[numElem + 1];
      StoreIndex(heap[pindex], pindex);
      assert heap[..] == before[pindex := before[n]];
      var i := UpHeap(pindex, tracked);
      DownHeap(i, tracked);
    }

    method RemoveNext() returns (obj: Option<T>)
      requires Valid()
      modifies this, heap
      ensures Valid() && heap == old(heap)
      ensures obj.None? <==> old(Elements()) == multiset{}
      ensures obj.Some? ==> Elements() + multiset{obj.value} == old(Elements()) && numElem == old(numElem) - 1
      ensures obj.None? ==> Elements() == old(Elements()) == multiset{}
      ensures obj.Some? ==> forall x :: x in old(Elements()) ==> cmp(obj.value, x) >= 0
      ensures old(Indexed()) ==> Indexed()
    {
      ghost var before, n := heap[..], numElem;
      forall x | x in Elements()
        ensures n >= 1 && cmp(before[1], x) >= 0
      {
        var k :| 0 <= k < n && before[1..n + 1][k] == x;
        RootIsFirst(cmp, domain, before, n, k + 1);
      }
      obj := Remove(1);
    }

    /** Takes out everything, as a traversal does: for any total preorder the elements come in
        non-increasing order. */
    method Drain() returns (out: seq<T>)
      requires Valid()
      modifies this, heap
      ensures Valid() && Elements() == multiset{} && multiset(out) == old(Elements())
      ensures NonIncreasing(cmp, out)
    {
      out := [];
      assert Precede(cmp, out, Elements()) && NonIncreasing(cmp, out);
      hide Queue.Valid, Queue.Elements, Precede, NonIncreasing;
      while true
        invariant Valid() && heap == old(heap) && multiset(out) + Elements() == old(Elements())
        invariant Precede(cmp, out, Elements()) && NonIncreasing(cmp, out)
        decreases |Elements()|
      {
        ghost var before := Elements();
        var obj := RemoveNext();
        if obj == None {
          break;
        }
        DrawnNext(cmp, out, before, Elements(), obj.value);
        out := out + [obj.value];
      }
    }
  }

  ghost predicate NonIncreasing<T>(cmp: (T, T) -> int, out: seq<T>) {
    forall i, j :: 0 <= i < j < |out| ==> cmp(out[i], out[j]) >= 0
  }

  ghost predicate Precede<T>(cmp: (T, T) -> int, out: seq<T>, rest: multiset<T>) {
    forall i, x :: 0 <= i < |out| && x in rest ==> cmp(out[i], x) >= 0
  }

  lemma DrawnNext<T>(cmp: (T, T) -> int, out: seq<T>, before: multiset<T>, after: multiset<T>, obj: T)
    requires Precede(cmp, out, before) && NonIncreasing(cmp, out) && after + multiset{obj} == before
    requires forall x :: x in before ==> cmp(obj, x) >= 0
    ensures Precede(cmp, out + [obj], after) && NonIncreasing(cmp, out + [obj])
  {
    assert obj in before;
    assert forall x :: x in after ==> x in before;
  }
}

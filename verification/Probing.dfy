/** Linear probing on a ring of slots: what a table must satisfy for every stored object to be
    found, and why the half-table test of backward-shift deletion decides cyclic order
    (paperplane/src/pp_base/pp_named_var.c). */
module Probing {
  import opened Collections
  import opened Options

  type Slots<T> = seq<Option<T>>

  /** Steps from slot a forward to slot b on a ring of n slots */
  ghost function Dist(a: nat, b: nat, n: nat): (d: nat)
    requires a < n && b < n
    ensures d < n
  {
    if a <= b then b - a else b + n - a
  }

  ghost function Forward(a: nat, d: nat, n: nat): (b: nat)
    requires a < n && d < n
    ensures b < n && Dist(a, b, n) == d
  {
    if a + d < n then a + d else a + d - n
  }

  ghost function Ideal<T>(hash: T -> nat, obj: T, n: nat): (i: nat)
    requires n > 0
    ensures i < n
  {
    hash(obj) % n
  }

  /** Every slot on the way from the ideal slot of the object in slot i to slot i is in use,
      except possibly the slot hole. */
  ghost predicate Reachable<T>(t: Slots<T>, hash: T -> nat, i: nat, hole: int)
    requires i < |t| && t[i].Some?
  {
    var ideal := Ideal(hash, t[i].value, |t|);
    forall j :: 0 <= j < |t| && Dist(ideal, j, |t|) < Dist(ideal, i, |t|) ==> t[j].Some? || j == hole
  }

  ghost predicate WellPlaced<T>(t: Slots<T>, hash: T -> nat) {
    forall i :: 0 <= i < |t| && t[i].Some? ==> Reachable(t, hash, i, -1)
  }

  ghost predicate NoDuplicates<T>(t: Slots<T>) {
    forall i, j :: 0 <= i < j < |t| && t[i].Some? ==> t[i] != t[j]
  }

  ghost function Occupied<T>(t: Slots<T>): set<nat> {
    set i: nat | i < |t| && t[i].Some?
  }

  ghost function Objects<T>(t: Slots<T>): set<T> {
    set i | 0 <= i < |t| && t[i].Some? :: t[i].value
  }

  // ---------------------------------------------------------------- counting

  ghost function Arc(a: nat, d: nat, n: nat): set<nat>
    requires a < n
  {
    set j: nat | j < n && Dist(a, j, n) < d
  }

  lemma {:induction false} ArcCardinality(a: nat, d: nat, n: nat)
    requires a < n && d <= n
    ensures |Arc(a, d, n)| == d
  {
    if d == 0 {
      assert Arc(a, d, n) == {};
    } else {
      ArcCardinality(a, d - 1, n);
      assert Arc(a, d, n) == Arc(a, d - 1, n) + {Forward(a, d - 1, n)};
    }
  }

  /** A run of d slots in use, with at most one exception, needs d - 1 stored objects. */
  lemma RunIsShort<T>(t: Slots<T>, a: nat, d: nat, hole: nat)
    requires a < |t| && d <= |t| && hole < |t|
    requires forall j :: 0 <= j < |t| && Dist(a, j, |t|) < d ==> t[j].Some? || j == hole
    ensures d <= |Occupied(t)| + 1
    ensures t[hole].Some? ==> d <= |Occupied(t)|
  {
    ArcCardinality(a, d, |t|);
    SubsetCardinality(Arc(a, d, |t|), Occupied(t) + {hole});
    assert t[hole].Some? ==> Occupied(t) + {hole} == Occupied(t);
  }

  // ---------------------------------------------------------------- the half-table test

  /** Whether the hole is at most half a ring ahead of the ideal slot, as the half-table test
      computes it */
  function CanMove(ideal: nat, hole: nat, size: nat): bool
    requires size > 0
  {
    var half := size / 2;
    var far := (if ideal >= hole then ideal - hole else hole - ideal) > half;
    if far then (ideal + half) % size <= (hole + half) % size else ideal <= hole
  }

  /** On a ring of odd size the test says exactly whether the hole is at most half a ring
      ahead of the ideal slot. */
  lemma CanMoveIsHalfRing(ideal: nat, hole: nat, size: nat)
    requires ideal < size && hole < size && size % 2 == 1
    ensures CanMove(ideal, hole, size) <==> Dist(ideal, hole, size) <= size / 2
  {
    var half := size / 2;
    assert size == 2 * half + 1;
    Wrap(ideal + half, size);
    Wrap(hole + half, size);
  }

  lemma Wrap(x: nat, n: nat)
    requires x < 2 * n
    ensures x % n == if x < n then x else x - n
  {
    if x >= n {
      assert x == n + (x - n);
      WrapOnce(x - n, n);
    }
  }

  lemma WrapOnce(r: nat, n: nat)
    requires r < n
    ensures (n + r) % n == r
  {
    var q, m := (n + r) / n, (n + r) % n;
    assert n + r == q * n + m;
    Multiples(q, n);
  }

  lemma Multiples(q: int, n: nat)
    ensures (q >= 2 ==> q * n >= 2 * n) && (q <= 0 ==> q * n <= 0) && (q == 1 ==> q * n == n)
  {
    if q >= 2 {
      assert q * n == 2 * n + (q - 2) * n;
    }
  }

  function Next(index: nat, size: nat): (next: nat)
    requires index < size && size > 1
    ensures next == Forward(index, 1, size)
  {
    Wrap(index + 1, size);
    (index + 1) % size
  }

  // ---------------------------------------------------------------- insertion and lookup

  /** The probe reached an empty slot p: whatever is not among the slots passed is absent. */
  lemma ProbeMisses<T>(t: Slots<T>, hash: T -> nat, i: nat, a: nat, p: nat)
    requires WellPlaced(t, hash) && i < |t| && a < |t| && p < |t|
    requires t[i].Some? && t[p].None? && Ideal(hash, t[i].value, |t|) == a
    ensures Dist(a, i, |t|) < Dist(a, p, |t|)
  {
    assert Reachable(t, hash, i, -1);
  }

  lemma InsertKeeps<T>(t: Slots<T>, hash: T -> nat, p: nat, obj: T)
    requires WellPlaced(t, hash) && NoDuplicates(t) && p < |t| && t[p].None?
    requires obj !in Objects(t)
    requires var a := Ideal(hash, obj, |t|);
      forall j :: 0 <= j < |t| && Dist(a, j, |t|) < Dist(a, p, |t|) ==> t[j].Some?
    ensures var u := t[p := Some(obj)];
      && WellPlaced(u, hash) && NoDuplicates(u)
      && Objects(u) == Objects(t) + {obj}
      && Occupied(u) == Occupied(t) + {p}
      && |Occupied(u)| == |Occupied(t)| + 1
  {
    var u := t[p := Some(obj)];
    forall i | 0 <= i < |u| && u[i].Some?
      ensures Reachable(u, hash, i, -1)
    {
      if i != p {
        assert Reachable(t, hash, i, -1);
      }
    }
    forall i | 0 <= i < |t| && t[i].Some?
      ensures t[i].value != obj
    {
      assert t[i].value in Objects(t);
    }
    UpdateObjects(t, p, obj);
    assert Occupied(u) == Occupied(t) + {p};
  }

  lemma UpdateObjects<T>(t: Slots<T>, p: nat, obj: T)
    requires p < |t| && t[p].None?
    ensures Objects(t[p := Some(obj)]) == Objects(t) + {obj}
  {
    var u := t[p := Some(obj)];
    forall o
      ensures o in Objects(u) <==> o in Objects(t) + {obj}
    {
      if o in Objects(t) {
        var i :| 0 <= i < |t| && t[i].Some? && t[i].value == o;
        assert u[i] == t[i];
      }
      assert u[p].value in Objects(u);
    }
  }

  // ---------------------------------------------------------------- deletion

  /** Backward-shift deletion between steps. start is the slot emptied first, hole the slot
      empty now, at the last slot examined. */
  ghost predicate Shifting<T>(t: Slots<T>, hash: T -> nat, start: nat, hole: nat, at: nat)
    requires start < |t| && hole < |t| && at < |t|
  {
    && t[hole].None?
    && (forall j :: 0 <= j < |t| && Dist(start, j, |t|) <= Dist(start, at, |t|) ==> t[j].Some? || j == hole)
    && Dist(start, hole, |t|) <= Dist(start, at, |t|)
    && (forall i :: 0 <= i < |t| && t[i].Some? ==> Reachable(t, hash, i, hole))
    && (forall i :: 0 <= i < |t| && t[i].Some? && Dist(hole, i, |t|) <= Dist(hole, at, |t|) ==>
      PastHole(t, hash, i, hole))
  }

  /** The way to the object in slot i does not lead over the hole. */
  ghost predicate PastHole<T>(t: Slots<T>, hash: T -> nat, i: nat, hole: nat)
    requires i < |t| && hole < |t| && t[i].Some?
  {
    var ideal := Ideal(hash, t[i].value, |t|);
    Dist(ideal, i, |t|) <= Dist(ideal, hole, |t|)
  }

  lemma ShiftStarts<T>(t: Slots<T>, hash: T -> nat, p: nat)
    requires WellPlaced(t, hash) && p < |t| && t[p].Some?
    ensures Shifting(t[p := None], hash, p, p, p)
  {
    var u := t[p := None];
    forall i | 0 <= i < |u| && u[i].Some?
      ensures Reachable(u, hash, i, p)
    {
      assert Reachable(t, hash, i, -1);
    }
  }

  lemma ShiftIsShort<T>(t: Slots<T>, hash: T -> nat, start: nat, hole: nat, at: nat)
    requires start < |t| && hole < |t| && at < |t| && Shifting(t, hash, start, hole, at)
    ensures Dist(start, at, |t|) <= |Occupied(t)|
  {
    RunIsShort(t, start, Dist(start, at, |t|) + 1, hole);
  }

  /** The half-table test on the object after the last one examined: it moves exactly when
      the way to it leads over the hole. */
  lemma TestIsExact<T>(t: Slots<T>, hash: T -> nat, start: nat, hole: nat, at: nat, next: nat)
    requires start < |t| && hole < |t| && at < |t| && Shifting(t, hash, start, hole, at)
    requires |t| > 1 && next == Forward(at, 1, |t|) && t[next].Some?
    requires |t| % 2 == 1 && 2 * |Occupied(t)| + 4 < |t|
    ensures CanMove(Ideal(hash, t[next].value, |t|), hole, |t|) <==> !PastHole(t, hash, next, hole)
  {
    var n := |t|;
    var ideal := Ideal(hash, t[next].value, n);
    CanMoveIsHalfRing(ideal, hole, n);
    assert Reachable(t, hash, next, hole);
    RunIsShort(t, ideal, Dist(ideal, next, n), hole);
    ShiftIsShort(t, hash, start, hole, at);
  }

  /** The object may stay: it is reached without passing the hole. */
  lemma ShiftSkips<T>(t: Slots<T>, hash: T -> nat, start: nat, hole: nat, at: nat, next: nat)
    requires start < |t| && hole < |t| && at < |t| && Shifting(t, hash, start, hole, at)
    requires |t| > 1 && next == Forward(at, 1, |t|) && t[next].Some? && PastHole(t, hash, next, hole)
    requires Dist(start, at, |t|) + 1 < |t|
    ensures Shifting(t, hash, start, hole, next)
  {
    var n := |t|;
    assert Dist(start, next, n) == Dist(start, at, n) + 1;
    forall j | 0 <= j < n && Dist(start, j, n) <= Dist(start, next, n)
      ensures t[j].Some? || j == hole
    {
      assert j == next || Dist(start, j, n) <= Dist(start, at, n);
    }
    forall i | 0 <= i < n && t[i].Some? && Dist(hole, i, n) <= Dist(hole, next, n)
      ensures PastHole(t, hash, i, hole)
    {
      assert i == next || Dist(hole, i, n) <= Dist(hole, at, n);
    }
  }

  ghost function Moved<T>(t: Slots<T>, hole: nat, next: nat): Slots<T>
    requires hole < |t| && next < |t|
  {
    t[hole := t[next]][next := None]
  }

  /** Moving an object into the hole leaves the hole where the object was. */
  lemma ShiftMoves<T>(t: Slots<T>, hash: T -> nat, start: nat, hole: nat, at: nat, next: nat)
    requires start < |t| && hole < |t| && at < |t| && Shifting(t, hash, start, hole, at)
    requires |t| > 1 && next == Forward(at, 1, |t|) && t[next].Some? && !PastHole(t, hash, next, hole)
    requires Dist(start, at, |t|) + 1 < |t|
    ensures Shifting(Moved(t, hole, next), hash, start, next, next)
  {
    var u := Moved(t, hole, next);
    forall i | 0 <= i < |u| && u[i].Some?
      ensures Reachable(u, hash, i, next)
    {
      assert Reachable(t, hash, if i == hole then next else i, hole);
    }
  }

  lemma MoveOccupied<T>(t: Slots<T>, hole: nat, next: nat)
    requires hole < |t| && next < |t| && t[hole].None? && t[next].Some?
    ensures |Occupied(Moved(t, hole, next))| == |Occupied(t)|
  {
    var before, after := Occupied(t), Occupied(Moved(t, hole, next));
    var common := before - {next};
    assert before == common + {next} && after == common + {hole};
    assert next !in common && hole !in common;
  }

  lemma MoveKeeps<T>(t: Slots<T>, hole: nat, next: nat)
    requires NoDuplicates(t) && hole < |t| && next < |t| && t[hole].None? && t[next].Some?
    ensures var u := Moved(t, hole, next);
      && NoDuplicates(u) && Objects(u) == Objects(t) && |Occupied(u)| == |Occupied(t)|
  {
    var u := Moved(t, hole, next);
    MoveOccupied(t, hole, next);
    hide Occupied;
    forall o
      ensures o in Objects(u) <==> o in Objects(t)
    {
      if o in Objects(t) {
        var i :| 0 <= i < |t| && t[i].Some? && t[i].value == o;
        assert u[if i == next then hole else i] == t[i];
      }
      if o in Objects(u) {
        var i :| 0 <= i < |u| && u[i].Some? && u[i].value == o;
        assert t[if i == hole then next else i] == u[i];
      }
    }
  }

  /** The next slot is empty: every object is again reachable without exception. */
  lemma ShiftEnds<T>(t: Slots<T>, hash: T -> nat, start: nat, hole: nat, at: nat, next: nat)
    requires start < |t| && hole < |t| && at < |t| && Shifting(t, hash, start, hole, at)
    requires |t| > 1 && next == Forward(at, 1, |t|) && t[next].None?
    requires Dist(start, at, |t|) + 1 < |t|
    ensures WellPlaced(t, hash)
  {
    forall i | 0 <= i < |t| && t[i].Some?
      ensures Reachable(t, hash, i, -1)
    {
      assert Reachable(t, hash, i, hole);
      if Dist(hole, i, |t|) <= Dist(hole, at, |t|) {
        assert PastHole(t, hash, i, hole);
      } else {
        assert next != hole;
      }
    }
  }

  lemma EmptyKeeps<T>(t: Slots<T>, p: nat, obj: T)
    requires NoDuplicates(t) && p < |t| && t[p] == Some(obj)
    ensures var u := t[p := None];
      && NoDuplicates(u) && Objects(u) == Objects(t) - {obj} && |Occupied(u)| + 1 == |Occupied(t)|
  {
    var u := t[p := None];
    assert Occupied(t) == Occupied(u) + {p};
    forall o
      ensures o in Objects(u) <==> o in Objects(t) - {obj}
    {
      if o in Objects(t) - {obj} {
        var i :| 0 <= i < |t| && t[i].Some? && t[i].value == o;
        assert u[i] == t[i];
      }
      if o in Objects(u) {
        var i :| 0 <= i < |u| && u[i].Some? && u[i].value == o;
        assert t[i] == u[i] && t[i] != t[p];
      }
    }
  }

  // ---------------------------------------------------------------- the loop of a deletion

  ghost predicate Gap<T>(t: Slots<T>, hash: T -> nat, start: nat, hole: nat, at: nat, objects: set<T>, elem: nat)
    requires start < |t| && hole < |t| && at < |t|
  {
    && Shifting(t, hash, start, hole, at)
    && NoDuplicates(t)
    && Objects(t) == objects
    && |Occupied(t)| == elem
    && |t| % 2 == 1
    && 2 * elem + 4 < |t|
  }

  lemma GapBegins<T>(t: Slots<T>, hash: T -> nat, start: nat)
    requires start < |t| && Shifting(t, hash, start, start, start) && NoDuplicates(t)
    requires |t| % 2 == 1 && 2 * |Occupied(t)| + 4 < |t|
    ensures Gap(t, hash, start, start, start, Objects(t), |Occupied(t)|)
  {
  }

  /** One step over a slot in use, as the half-table test decides it */
  lemma GapStep<T>(t: Slots<T>, hash: T -> nat, start: nat, hole: nat, at: nat, next: nat, objects: set<T>, elem: nat)
    requires start < |t| && hole < |t| && at < |t| && Gap(t, hash, start, hole, at, objects, elem)
    requires |t| > 1 && next == Forward(at, 1, |t|) && t[next].Some?
    ensures Dist(start, next, |t|) == Dist(start, at, |t|) + 1
    ensures hole != next
    ensures if CanMove(Ideal(hash, t[next].value, |t|), hole, |t|)
      then Gap(Moved(t, hole, next), hash, start, next, next, objects, elem)
      else Gap(t, hash, start, hole, next, objects, elem)
  {
    ShiftIsShort(t, hash, start, hole, at);
    TestIsExact(t, hash, start, hole, at, next);
    if CanMove(Ideal(hash, t[next].value, |t|), hole, |t|) {
      ShiftMoves(t, hash, start, hole, at, next);
      MoveKeeps(t, hole, next);
    } else {
      ShiftSkips(t, hash, start, hole, at, next);
    }
  }

  lemma GapEnds<T>(t: Slots<T>, hash: T -> nat, start: nat, hole: nat, at: nat, next: nat, objects: set<T>, elem: nat)
    requires start < |t| && hole < |t| && at < |t| && Gap(t, hash, start, hole, at, objects, elem)
    requires |t| > 1 && next == Forward(at, 1, |t|) && t[next].None?
    ensures WellPlaced(t, hash) && NoDuplicates(t) && Objects(t) == objects && |Occupied(t)| == elem
  {
    ShiftIsShort(t, hash, start, hole, at);
    ShiftEnds(t, hash, start, hole, at, next);
  }
}

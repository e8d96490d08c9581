/** The growing and shrinking open-addressing hash table pp_nhash
    (paperplane/src/pp_base/pp_named_var.c). */
module HashTable {
  import opened Collections
  import opened Options
  import opened Probing

  const LOW_WATER_MARK: nat := 2
  const HIGH_WATER_MARK: nat := 25
  const INITIAL_SIZE: nat := 29

  /** The table size after growing k times: shrinking takes one step back. */
  ghost function SizeAfter(k: nat): (s: nat)
    ensures s >= INITIAL_SIZE && s % 2 == 1
    ensures k > 0 <==> s > INITIAL_SIZE
  {
    if k == 0 then INITIAL_SIZE else 2 * SizeAfter(k - 1) + 3
  }

  lemma {:induction false} SizeClosedForm(k: nat)
    ensures SizeAfter(k) == 32 * Pow2(k) - 3
  {
    if k > 0 {
      SizeClosedForm(k - 1);
    }
  }

  lemma LoadTest(hundredfold: nat, size: nat, mark: nat)
    requires size > 0
    ensures hundredfold / size > mark <==> hundredfold >= (mark + 1) * size
    ensures hundredfold / size < mark <==> hundredfold < mark * size
  {
    var q := hundredfold / size;
    assert q * size <= hundredfold < (q + 1) * size;
    if q > mark {
      assert (mark + 1) * size <= q * size;
    } else {
      assert (q + 1) * size <= (mark + 1) * size;
    }
    if q < mark {
      assert (q + 1) * size <= mark * size;
    } else {
      assert mark * size <= q * size;
    }
  }

  lemma ResizedLoad(elem: nat, grows: nat, increase: bool)
    requires increase ==> elem * 100 < 26 * SizeAfter(grows)
    requires !increase ==> SizeAfter(grows) > INITIAL_SIZE && elem * 100 < 2 * SizeAfter(grows)
    ensures var size := SizeAfter(grows);
      if increase then SizeAfter(grows + 1) == size * 2 + 3 && (elem + 1) * 100 < 26 * (size * 2 + 3)
      else grows > 0 && SizeAfter(grows - 1) == size / 2 - 1 && (elem + 1) * 100 < 26 * (size / 2 - 1)
  {
  }

  class Hash<T(==), K> {
    const objHash: T -> nat
    const keyHash: K -> nat
    const objKeyCmp: (T, K) -> bool
    var elem: nat
    var size: nat
    var table: array<Option<T>>
    ghost var grows: nat

    /** What a resize relies on: everything but the placement of the objects */
    ghost predicate Loaded()
      reads this, table
    {
      && size == table.Length == SizeAfter(grows)
      && elem == |Occupied(table[..])|
      && elem * 100 < 26 * size
      && NoDuplicates(table[..])
    }

    ghost predicate Valid()
      reads this, table
    {
      Loaded() && WellPlaced(table[..], objHash)
    }

    ghost function Stored(): set<T>
      reads this, table
    {
      Objects(table[..])
    }

    /** One more object would pass the high water mark. */
    predicate Full()
      reads this
    {
      size > 0 && (elem + 1) * 100 / size > HIGH_WATER_MARK
    }

    predicate Sparse()
      reads this
    {
      size > INITIAL_SIZE && elem * 100 / size < LOW_WATER_MARK
    }

    lemma Marks()
      requires size > 0
      ensures Full() <==> (elem + 1) * 100 >= 26 * size
      ensures Sparse() <==> size > 29 && elem * 100 < 2 * size
    {
      LoadTest((elem + 1) * 100, size, HIGH_WATER_MARK);
      LoadTest(elem * 100, size, LOW_WATER_MARK);
    }

    constructor (objHash: T -> nat, keyHash: K -> nat, objKeyCmp: (T, K) -> bool)
      ensures Valid() && fresh(table) && Stored() == {} && elem == 0 && size == 29
      ensures this.objHash == objHash && this.keyHash == keyHash && this.objKeyCmp == objKeyCmp
    {
      this.objHash, this.keyHash, this.objKeyCmp := objHash, keyHash, objKeyCmp;
      table := new Option<T>[INITIAL_SIZE](_ => None);
      size := INITIAL_SIZE;
      elem := 0;
      grows := 0;
      new;
      assert Occupied(table[..]) == {};
    }

    /** Rebuilds the table one step larger or smaller; calloc is whether memory is granted. */
    method Resize(increase: bool, calloc: bool) returns (err: int)
      requires Loaded()
      requires if increase then Full() else Sparse()
      modifies this
      ensures err == if calloc then 0 else -1
      ensures err == 0 ==> Valid() && fresh(table) && Stored() == old(Stored()) && elem == old(elem)
      ensures err == 0 ==> grows == (if increase then old(grows) + 1 else old(grows) - 1)
      ensures err == 0 ==> size == if increase then 2 * old(size) + 3 else old(size) / 2 - 1
      ensures err == 0 ==> !Full()
      ensures err != 0 ==> unchanged(this)
      decreases 2
    {
      hide Full, Sparse, WellPlaced, SizeAfter;
      Marks();
      var oldTable := table;
      var oldSize := size;
      ResizedLoad(elem, grows, increase);
      if !calloc {
        return -1;
      }
      NewTable(if increase then size * 2 + 3 else size / 2 - 1, if increase then grows + 1 else grows - 1);
      Refill(oldTable, oldSize);
      Marks();
      return 0;
    }

    method NewTable(newSize: nat, ghost newGrows: nat)
      requires newSize == SizeAfter(newGrows)
      modifies this
      ensures Valid() && fresh(table) && Stored() == {} && elem == 0 && size == newSize && grows == newGrows
    {
      size := newSize;
      table := new Option<T>[size](_ => None);
      elem := 0;
      grows := newGrows;
      assert Occupied(table[..]) == {};
    }

    /** The loop of a resize. Re-adding never resizes again, so the recursion ends. */
    method Refill(oldTable: array<Option<T>>, oldSize: nat)
      requires Valid() && Stored() == {} && elem == 0
      requires oldTable != table && oldTable.Length == oldSize && NoDuplicates(oldTable[..])
      requires (|Occupied(oldTable[..])| + 1) * 100 < 26 * size
      modifies this, table
      ensures Valid() && table == old(table) && grows == old(grows)
      ensures Stored() == Objects(oldTable[..]) && elem == |Occupied(oldTable[..])|
      decreases 1
    {
      hide Full, Sparse, WellPlaced, SizeAfter, Occupied, Objects;
      ghost var was := oldTable[..];
      NoSlots(was[..0]);
      for i := 0 to oldSize
        invariant Valid() && table == old(table) && oldTable[..] == was && grows == old(grows)
        invariant Stored() == Objects(was[..i])
        invariant elem == |Occupied(was[..i])| <= |Occupied(was)|
      {
        PrefixStep(was, i);
        if oldTable[i] != None {
          Marks();
          var e := Add(oldTable[i].value, true);
        }
      }
      assert was[..oldSize] == was;
    }

    /** Where the object is, or the first free slot of its probe path. */
    method Probe(obj: T) returns (index: nat, duplicate: bool)
      requires Valid()
      ensures index < size
      ensures duplicate <==> obj in Stored()
      ensures !duplicate ==> table[index].None?
      ensures !duplicate ==> PathInUse(table[..], Ideal(objHash, obj, size), index)
    {
      ghost var t := table[..];
      ghost var start := Ideal(objHash, obj, size);
      assert size == |t| == table.Length > 1 && WellPlaced(t, objHash) && |Occupied(t)| < size - 1;
      hide Hash.Valid, Hash.Loaded, WellPlaced, Occupied;
      ghost var steps: nat := 0;
      var hashIndex := objHash(obj) % size;
      Wrap(hashIndex, size);
      while table[hashIndex % size] != None
        invariant steps < size && hashIndex == start + steps
        invariant hashIndex % size == Forward(start, steps, size)
        invariant forall j :: 0 <= j < size && Dist(start, j, size) < steps ==> t[j].Some? && t[j].value != obj
        decreases size - steps
      {
        if table[hashIndex % size] == Some(obj) {
          assert t[hashIndex % size].value in Objects(t);
          return hashIndex % size, true;
        }
        RunIsShort(t, start, steps + 1, hashIndex % size);
        hashIndex := hashIndex + 1;
        steps := steps + 1;
        Wrap(hashIndex, size);
      }
      index := hashIndex % size;
      duplicate := false;
      ObjectIsAbsent(t, obj, start, index);
    }

    /** The probe did not meet the object on its way to an empty slot: it is not stored. */
    lemma ObjectIsAbsent(t: Slots<T>, obj: T, start: nat, p: nat)
      requires start < |t| && p < |t| && t[p].None? && WellPlaced(t, objHash) && start == Ideal(objHash, obj, |t|)
      requires forall j :: 0 <= j < |t| && Dist(start, j, |t|) < Dist(start, p, |t|) ==>
        t[j].Some? && t[j].value != obj
      ensures obj !in Objects(t)
    {
      hide WellPlaced;
      if obj in Objects(t) {
        var i :| 0 <= i < |t| && t[i].Some? && t[i].value == obj;
        ProbeMisses(t, objHash, i, start, p);
        assert false;
      }
    }

    method Add(obj: T, calloc: bool) returns (err: int)
      requires Valid()
      modifies this, table
      ensures Valid() && (if old(Full()) && calloc then fresh(table) else table == old(table))
      ensures err == 0 <==> obj !in old(Stored()) && (calloc || !old(Full()))
      ensures err == 0 || err == -1
      ensures Stored() == if err == 0 then old(Stored()) + {obj} else old(Stored())
      ensures elem == if err == 0 then old(elem) + 1 else old(elem)
      ensures grows == if old(Full()) && calloc then old(grows) + 1 else old(grows)
      ensures old(Full()) <==> (old(elem) + 1) * 100 >= 26 * old(size)
      ensures size == if (old(elem) + 1) * 100 >= 26 * old(size) && calloc then 2 * old(size) + 3 else old(size)
      decreases if Full() then 3 else 0
    {
      hide Full, Sparse, WellPlaced, NoDuplicates, Objects, PathInUse, SizeAfter;
      Marks();
      if Full() {
        err := Resize(true, calloc);
        if err != 0 {
          return;
        }
      }
      Marks();
      if size / 2 <= elem {
        assert false;
        return -1;
      }
      var index, duplicate := Probe(obj);
      if duplicate {
        return -1;
      }
      Place(index, obj);
      return 0;
    }

    method Place(index: nat, obj: T)
      requires Valid() && index < size && table[index].None? && obj !in Stored()
      requires PathInUse(table[..], Ideal(objHash, obj, size), index)
      requires (elem + 1) * 100 < 26 * size
      modifies this`elem, table
      ensures Valid() && elem == old(elem) + 1 && Stored() == old(Stored()) + {obj}
    {
      hide WellPlaced, NoDuplicates, Objects, SizeAfter;
      ghost var t := table[..];
      InsertKeeps(t, objHash, index, obj);
      table[index] := Some(obj);
      assert table[..] == t[index := Some(obj)];
      elem := elem + 1;
    }

    /** Removes an object, shrinks when nearly empty and otherwise closes the gap; calloc is
        whether memory for a smaller table is granted. */
    method Remove(obj: T, calloc: bool) returns (err: int)
      requires Valid()
      modifies this, table
      ensures Valid() && (table == old(table) || fresh(table))
      ensures err == if obj in old(Stored()) then 0 else -1
      ensures Stored() == old(Stored()) - {obj}
      ensures elem == if err == 0 then old(elem) - 1 else old(elem)
      ensures grows == if err == 0 && calloc && old(grows) > 0 && elem * 100 / SizeAfter(old(grows)) < LOW_WATER_MARK
                       then old(grows) - 1 else old(grows)
      ensures size == if err == 0 && calloc && old(size) > 29 && elem * 100 < 2 * old(size)
                      then old(size) / 2 - 1 else old(size)
    {
      var hashIndex, found := Locate(obj);
      if !found {
        return -1;
      }
      ghost var t := table[..];
      table[hashIndex] := None;
      assert table[..] == t[hashIndex := None];
      EmptyKeeps(t, hashIndex, obj);
      ShiftStarts(t, objHash, hashIndex);
      elem := elem - 1;

      Marks();
      if Sparse() {
        var resized := Resize(false, calloc);
        if resized == 0 {
          return 0;
        }
      }
      CloseGap(hashIndex);
      return 0;
    }

    /** The probe of a removal: ends at the object or at an empty slot. */
    method Locate(obj: T) returns (index: nat, found: bool)
      requires Valid()
      ensures index < size
      ensures found <==> obj in Stored()
      ensures found ==> table[index] == Some(obj)
    {
      ghost var t := table[..];
      ghost var start := Ideal(objHash, obj, size);
      assert size == |t| == table.Length > 1 && WellPlaced(t, objHash) && |Occupied(t)| < size - 1;
      hide Hash.Valid, Hash.Loaded, WellPlaced, Occupied;
      ghost var steps: nat := 0;
      var hashIndex := objHash(obj) % size;
      while table[hashIndex] != Some(obj)
        invariant steps < size && hashIndex == Forward(start, steps, size)
        invariant forall j :: 0 <= j < size && Dist(start, j, size) < steps ==> t[j].Some? && t[j].value != obj
        decreases size - steps
      {
        if table[hashIndex] == None {
          ObjectIsAbsent(t, obj, start, hashIndex);
          return hashIndex, false;
        }
        RunIsShort(t, start, steps + 1, hashIndex);
        steps := steps + 1;
        hashIndex := hashIndex + 1;
        Wrap(hashIndex, size);
        hashIndex := hashIndex % size;
      }
      assert t[hashIndex].value in Objects(t);
      return hashIndex, true;
    }

    /** The objects after the removed one can be out of place due to collisions; each one
        whose way leads over the hole moves into it. */
    method CloseGap(start: nat)
      requires Loaded() && start < size && Shifting(table[..], objHash, start, start, start)
      modifies table
      ensures Valid() && Stored() == old(Stored())
    {
      ghost var objects, t := Stored(), table[..];
      ghost var n := size;
      var newIndex: nat, hashIndex: nat := start, start;
      GapBegins(t, objHash, start);
      while table[Next(hashIndex, size)] != None
        invariant table[..] == t && |t| == size == n
        invariant newIndex < n && hashIndex < n
        invariant Gap(t, objHash, start, newIndex, hashIndex, objects, elem)
        decreases n - Dist(start, hashIndex, n)
      {
        ghost var at := hashIndex;
        hashIndex := Next(hashIndex, size);
        var idealIndex := objHash(table[hashIndex].value) % size;
        GapStep(t, objHash, start, newIndex, at, hashIndex, objects, elem);
        if CanMove(idealIndex, newIndex, size) {
          MoveObject(hashIndex, newIndex);
          t := Moved(t, newIndex, hashIndex);
          newIndex := hashIndex;
        }
      }
      GapEnds(t, objHash, start, newIndex, hashIndex, Next(hashIndex, size), objects, elem);
    }

    method MoveObject(src: nat, hole: nat)
      requires src < table.Length && hole < table.Length
      modifies table
      ensures table[..] == Moved(old(table[..]), hole, src)
    {
      var cobj := table[src];
      table[hole] := cobj;
      table[src] := None;
    }

    /** Looks an object up by key. The caller's hash functions must agree on the objects that
        match the key. */
    method Get(key: K) returns (obj: Option<T>)
      requires Valid()
      requires forall o :: o in Stored() && objKeyCmp(o, key) ==> objHash(o) == keyHash(key)
      ensures obj.Some? ==> obj.value in Stored() && objKeyCmp(obj.value, key)
      ensures obj.None? ==> forall o :: o in Stored() ==> !objKeyCmp(o, key)
    {
      ghost var t := table[..];
      ghost var start := keyHash(key) % size;
      assert size == |t| == table.Length > 1 && WellPlaced(t, objHash) && |Occupied(t)| < size - 1;
      hide Hash.Valid, Hash.Loaded, WellPlaced, Occupied;
      ghost var steps: nat := 0;
      var hashIndex := keyHash(key) % size;
      while table[hashIndex] != None
        invariant steps < size && hashIndex == Forward(start, steps, size)
        invariant forall j :: 0 <= j < size && Dist(start, j, size) < steps ==>
          t[j].Some? && !objKeyCmp(t[j].value, key)
        decreases size - steps
      {
        if objKeyCmp(table[hashIndex].value, key) {
          assert t[hashIndex].value in Objects(t);
          return table[hashIndex];
        }
        RunIsShort(t, start, steps + 1, hashIndex);
        steps := steps + 1;
        Wrap(hashIndex + 1, size);
        hashIndex := (hashIndex + 1) % size;
      }
      KeyIsAbsent(t, key, start, hashIndex);
      return None;
    }

    /** The probe met no object with the key on its way to an empty slot: there is none. */
    lemma KeyIsAbsent(t: Slots<T>, key: K, start: nat, p: nat)
      requires start < |t| && p < |t| && t[p].None? && WellPlaced(t, objHash) && start == keyHash(key) % |t|
      requires forall o :: o in Objects(t) && objKeyCmp(o, key) ==> objHash(o) == keyHash(key)
      requires forall j :: 0 <= j < |t| && Dist(start, j, |t|) < Dist(start, p, |t|) ==>
        t[j].Some? && !objKeyCmp(t[j].value, key)
      ensures forall o :: o in Objects(t) ==> !objKeyCmp(o, key)
    {
      hide WellPlaced;
      forall o | o in Objects(t)
        ensures !objKeyCmp(o, key)
      {
        var i :| 0 <= i < |t| && t[i].Some? && t[i].value == o;
        if objKeyCmp(o, key) {
          ProbeMisses(t, objHash, i, start, p);
          assert false;
        }
      }
    }

    /** The objects handed to the callback of a traversal, in slot order; malloc is whether memory for
        the list of them is granted. */
    method Snapshot(malloc: bool) returns (elems: seq<T>)
      requires Valid()
      ensures !malloc ==> elems == []
      ensures malloc ==> |elems| == elem && forall o :: o in elems <==> o in Stored()
      ensures forall i, j :: 0 <= i < j < |elems| ==> elems[i] != elems[j]
    {
      elems := [];
      ghost var t := table[..];
      if elem == 0 {
        EmptyTable(t);
        return;
      }
      if !malloc {
        return;
      }
      for i := 0 to size
        invariant |elems| == |Occupied(t[..i])|
        invariant forall o :: o in elems <==> o in Objects(t[..i])
        invariant forall i, j :: 0 <= i < j < |elems| ==> elems[i] != elems[j]
      {
        PrefixStep(t, i);
        if table[i] != None {
          elems := elems + [table[i].value];
        }
      }
      assert t[..size] == t;
    }
  }

  lemma EmptyTable<T>(t: Slots<T>)
    requires Occupied(t) == {}
    ensures Objects(t) == {}
  {
    forall i | 0 <= i < |t|
      ensures t[i].None?
    {
      assert i !in Occupied(t);
    }
  }

  ghost predicate PathInUse<T>(t: Slots<T>, start: nat, index: nat)
    requires start < |t| && index < |t|
  {
    forall j :: 0 <= j < |t| && Dist(start, j, |t|) < Dist(start, index, |t|) ==> t[j].Some?
  }

  lemma NoSlots<T>(t: Slots<T>)
    requires |t| == 0
    ensures Objects(t) == {} && Occupied(t) == {}
  {
  }

  lemma PrefixStep<T>(t: Slots<T>, i: nat)
    requires i < |t| && NoDuplicates(t)
    ensures Occupied(t[..i + 1]) == if t[i].Some? then Occupied(t[..i]) + {i} else Occupied(t[..i])
    ensures |Occupied(t[..i + 1])| == |Occupied(t[..i])| + if t[i].Some? then 1 else 0
    ensures |Occupied(t[..i + 1])| <= |Occupied(t)|
    ensures Objects(t[..i + 1]) == if t[i].Some? then Objects(t[..i]) + {t[i].value} else Objects(t[..i])
    ensures t[i].Some? ==> t[i].value !in Objects(t[..i])
  {
    assert i !in Occupied(t[..i]);
    SubsetCardinality(Occupied(t[..i + 1]), Occupied(t));
    forall o
      ensures o in Objects(t[..i + 1]) <==> o in Objects(t[..i]) || t[i] == Some(o)
    {
      if o in Objects(t[..i]) {
        var k :| 0 <= k < i && t[..i][k].Some? && t[..i][k].value == o;
        assert t[..i + 1][k] == t[k];
      }
      if t[i] == Some(o) {
        assert t[..i + 1][i] == t[i];
      }
    }
  }
}

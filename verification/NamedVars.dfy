/** The store of named variables: a hash table of reference-counted entries, traversed in
    name order through a priority queue (paperplane/src/pp_base/pp_named_var.c). */
module NamedVars {
  import opened Options
  import opened Strings
  import Heaps
  import HashTable
  import PriorityQueue
  import Probing

  const FLAG_STRING: int := 0x0100

  /** flags & PP_NAMED_VAR_FLAG_STRING on a two's complement short */
  predicate IsString(flags: int) {
    flags / FLAG_STRING % 2 == 1
  }

  class Entry {
    const name: string
    var flags: int
    var refcount: int
    var value: string

    constructor (name: string, flags: int, value: string)
      ensures this.name == name && this.flags == flags && this.value == value && refcount == 1
    {
      this.name, this.flags, this.value, refcount := name, flags, value, 1;
    }
  }

  function CompareEntries(s1: Entry?, s2: Entry?): int {
    if s1 == null || s2 == null then 0 else StrCmp(s2.name, s1.name)
  }

  lemma EntriesAreOrdered(domain: iset<Entry?>)
    requires null !in domain
    ensures Heaps.Preorder(CompareEntries, domain)
  {
    forall x, y | x in domain && y in domain
      ensures CompareEntries(x, y) >= 0 <==> CompareEntries(y, x) <= 0
    {
      StrCmpIsAntisymmetric(x.name, y.name);
    }
    forall x, y, z | x in domain && y in domain && z in domain && CompareEntries(x, y) >= 0 && CompareEntries(y, z) >= 0
      ensures CompareEntries(x, z) >= 0
    {
      StrCmpIsAntisymmetric(x.name, y.name);
      StrCmpIsAntisymmetric(y.name, z.name);
      StrCmpIsAntisymmetric(x.name, z.name);
      StrCmpIsTransitive(x.name, y.name, z.name);
    }
  }

  /** The pattern of a traversal: a trailing asterisk is dropped and the rest must start the
      name. */
  function PrefixLength(pattern: string): nat
    requires |pattern| > 0
  {
    if pattern[|pattern| - 1] == '*' then |pattern| - 1 else |pattern|
  }

  predicate Matches(name: string, pattern: Option<string>)
    requires pattern.Some? ==> |pattern.value| > 0
  {
    pattern.Some? ==>
      var n := PrefixLength(pattern.value);
      n <= |name| && name[..n] == pattern.value[..n]
  }

  /** Without a pattern every name matches; otherwise the pattern is a prefix of the name, less its
      last character when that is an asterisk. */
  lemma MatchesPrefix(name: string, pattern: Option<string>)
    requires pattern.Some? ==> |pattern.value| > 0
    ensures pattern == None ==> Matches(name, pattern)
    ensures pattern.Some? ==> var p, n := pattern.value, |pattern.value| - 1;
      Matches(name, pattern) <==> if p[n] == '*' then p[..n] <= name else p <= name
  {
    if pattern.Some? && pattern.value[|pattern.value| - 1] != '*' {
      assert pattern.value[..|pattern.value|] == pattern.value;
    }
  }

  function HashEntry(hash: string -> nat): Entry -> nat {
    (e: Entry) => hash(e.name)
  }

  predicate HasName(e: Entry, key: string) {
    StrCmp(e.name, key) == 0
  }

  ghost predicate UniqueNames(entries: set<Entry>) {
    forall e1, e2 :: e1 in entries && e2 in entries && e1.name == e2.name ==> e1 == e2
  }

  /** What a reader of the store sees */
  ghost function Variables(entries: set<Entry>): map<string, (int, string)>
    reads entries
    requires UniqueNames(entries)
  {
    map e | e in entries :: e.name := (e.flags, e.value)
  }

  class VarTree {
    const vars: HashTable.Hash<Entry, string>

    ghost predicate Valid()
      reads this, vars, vars.table, vars.Stored()
    {
      && vars.Valid()
      && vars.objHash == HashEntry(vars.keyHash)
      && vars.objKeyCmp == HasName
      && UniqueNames(vars.Stored())
      && forall e :: e in vars.Stored() ==> e.refcount >= 1
    }

    ghost function Map(): map<string, (int, string)>
      reads this, vars, vars.table, vars.Stored()
      requires Valid()
    {
      Variables(vars.Stored())
    }

    constructor (hash: string -> nat)
      ensures Valid() && fresh(vars) && fresh(vars.table) && vars.Stored() == {}
    {
      vars := new HashTable.Hash<Entry, string>(HashEntry(hash), hash, HasName);
    }

    method Find(name: string) returns (entry: Option<Entry>)
      requires Valid()
      ensures entry.Some? <==> name in Map()
      ensures entry.Some? ==> entry.value in vars.Stored() && entry.value.name == name
    {
      forall e: Entry
        ensures vars.objKeyCmp(e, name) <==> e.name == name
      {
        StrCmpIsAntisymmetric(e.name, name);
      }
      entry := vars.Get(name);
    }

    /** A string is copied into the caller's buffer, if there is one, with its terminating zero;
        size then says how long it is or, when the buffer is too small, how much is needed. Other
        values are handed out as they are. */
    method Get(name: string, buffer: Option<nat>) returns (value: Option<string>, size: nat)
      requires Valid()
      ensures name !in Map() ==> value == None
      ensures name in Map() ==> var (flags, v) := Map()[name];
        if flags / 0x100 % 2 == 0 || buffer == None then value == Some(v)
        else if |v| + 1 > buffer.value then value == None && size == |v| + 1
        else value == Some(v) && size == |v|
      ensures buffer != None && (name in Map() ==> Map()[name].0 / 0x100 % 2 == 0) ==> size == buffer.value
    {
      size := if buffer == None then 0 else buffer.value;
      var entry := Find(name);
      if entry == None {
        return None, size;
      }
      NamedVariable(vars.Stored(), entry.value);
      var v := entry.value.value;
      if IsString(entry.value.flags) && buffer != None {
        var length := |v| + 1;
        if length > buffer.value {
          return None, length;
        }
        size := length - 1;
      }
      return Some(v), size;
    }

    /** Sets a variable. A changed type is refused; a string is replaced by a new entry, other
        values are overwritten in place. malloc and calloc are whether memory is granted for
        an entry and for a resized table: without it, a string variable is lost. */
    method SetTree(name: string, value: string, flags: int, malloc: bool, calloc: bool) returns (err: int)
      requires Valid()
      modifies vars, vars.table, vars.Stored()
      ensures Valid()
      ensures err == 0 || err == -1
      ensures Map() == if err == 0 then old(Map())[name := (flags, value)]
                       else if name in old(Map()) && old(Map())[name].0 != flags then old(Map())
                       else old(Map()) - {name}
      ensures name in old(Map()) && old(Map())[name].0 != flags ==> err == -1
      ensures (name in old(Map()) ==> old(Map())[name].0 == flags) && malloc && calloc ==> err == 0
    {
      hide HashTable.Hash.Valid, HashTable.Hash.Full, UniqueNames, Variables;
      var found := Find(name);
      if found != None {
        NamedVariable(vars.Stored(), found.value);
        if found.value.flags != flags {
          return -1;
        } else if IsString(flags) {
          Drop(found.value, calloc);
        } else {
          Assign(found.value, value, flags);
          return 0;
        }
      }
      err := Create(name, value, flags, malloc, calloc);
    }

    method Drop(entry: Entry, calloc: bool)
      requires Valid() && entry in vars.Stored()
      modifies vars, vars.table
      ensures Valid() && (vars.table == old(vars.table) || fresh(vars.table))
      ensures vars.Stored() == old(vars.Stored()) - {entry} && Map() == old(Map()) - {entry.name}
    {
      hide HashTable.Hash.Valid, HashTable.Hash.Full, UniqueNames, Variables;
      WithoutVariable(vars.Stored(), entry);
      var e := vars.Remove(entry, calloc);
    }

    method Assign(entry: Entry, value: string, flags: int)
      requires Valid() && entry in vars.Stored()
      modifies entry
      ensures Valid() && vars.Stored() == old(vars.Stored())
      ensures Map() == old(Map())[entry.name := (flags, value)]
    {
      hide HashTable.Hash.Valid, HashTable.Hash.Full;
      entry.refcount := 1;
      entry.flags := flags;
      entry.value := value;
    }

    method Create(name: string, value: string, flags: int, malloc: bool, calloc: bool) returns (err: int)
      requires Valid() && name !in Map()
      modifies vars, vars.table
      ensures Valid()
      ensures err == 0 || err == -1
      ensures malloc && calloc ==> err == 0
      ensures Map() == if err == 0 then old(Map())[name := (flags, value)] else old(Map())
    {
      hide HashTable.Hash.Valid, HashTable.Hash.Full, UniqueNames, Variables;
      if !malloc {
        return -1;
      }
      ghost var before := vars.Stored();
      var entry := new Entry(name, flags, value);
      NewName(before, entry);
      err := vars.Add(entry, calloc);
    }

    /** Gives back one reference; the last one takes the variable out of the store. */
    method Release(entry: Entry, calloc: bool)
      requires Valid() && entry in vars.Stored()
      modifies vars, vars.table, entry`refcount
      ensures Valid()
      ensures entry.refcount == old(entry.refcount) - 1
      ensures old(entry.refcount) > 1 ==> unchanged(vars) && unchanged(vars.table)
      ensures old(entry.refcount) == 1 ==> vars.Stored() == old(vars.Stored()) - {entry}
    {
      hide HashTable.Hash.Valid, HashTable.Hash.Full;
      entry.refcount := entry.refcount - 1;
      if entry.refcount == 0 {
        var e := vars.Remove(entry, calloc);
      }
    }

    /** The callback of the traversal of the table */
    method InsertCallback(s: Entry, pq: PriorityQueue.Queue<Entry?>)
      requires Valid() && s in vars.Stored() && pq.Valid() && s in pq.domain
      modifies pq, pq.heap, s`refcount
      ensures Valid() && s.refcount == old(s.refcount) + 1
      ensures pq.Valid() && (pq.heap == old(pq.heap) || fresh(pq.heap))
      ensures pq.Elements() == old(pq.Elements()) + multiset{s}
    {
      hide HashTable.Hash.Valid, HashTable.Hash.Full, UniqueNames, PriorityQueue.Queue.Valid, Heaps.Contents;
      s.refcount := s.refcount + 1;
      var err := pq.Insert(s, true);
    }

    method Snapshot() returns (snapshot: seq<Entry>)
      requires Valid()
      ensures IsListing(snapshot, vars.Stored())
      ensures forall k :: 0 <= k < |snapshot| ==> snapshot[k] in vars.Stored()
    {
      snapshot := vars.Snapshot(true);
      SnapshotIsListing(snapshot, vars.Stored());
    }

    lemma NamesAreUnique()
      requires Valid()
      ensures UniqueNames(vars.Stored())
    {
    }

    /** Takes a reference on every entry and queues it. */
    method QueueAll(pq: PriorityQueue.Queue<Entry?>) returns (ghost elems: seq<Entry?>)
      requires Valid() && pq.Valid() && pq.Elements() == multiset{}
      requires forall e :: e in vars.Stored() ==> e in pq.domain
      modifies pq, pq.heap, vars.Stored()`refcount
      ensures Valid() && vars.table == old(vars.table) && vars.Stored() == old(vars.Stored())
      ensures pq.Valid() && (pq.heap == old(pq.heap) || fresh(pq.heap))
      ensures IsListing(elems, vars.Stored()) && pq.Elements() == multiset(elems)
      ensures forall e :: e in vars.Stored() ==> e.refcount == old(e.refcount) + 1
    {
      hide VarTree.Valid, Probing.Objects, PriorityQueue.Queue.Valid, PriorityQueue.Queue.Elements, IsListing, Bag;
      hide Members;
      var snapshot := Snapshot();
      elems := snapshot;
      ghost var stored := vars.Stored();
      NothingListed(elems);
      for i := 0 to |snapshot|
        invariant Valid() && vars.table == old(vars.table) && vars.Stored() == stored
        invariant pq.Valid() && (pq.heap == old(pq.heap) || fresh(pq.heap))
        invariant pq.Elements() == Bag(elems, i)
        invariant forall e :: e in stored ==> e.refcount == old(e.refcount) + if e in Members(elems, i) then 1 else 0
      {
        ListedNext(elems, stored, i);
        InsertCallback(snapshot[i], pq);
      }
      AllListed(elems, stored);
    }

    /** One step of the traversal: the callback, if the name fits, and the release */
    method VisitNext(pattern: Option<string>, entry: Entry, visited0: seq<Entry?>, ghost taken: seq<Entry?>)
      returns (visited: seq<Entry?>)
      requires Valid() && (pattern.Some? ==> |pattern.value| > 0)
      requires entry in vars.Stored() && entry.refcount >= 2
      requires visited0 == Selected(taken, pattern)
      modifies vars, vars.table, entry`refcount
      ensures Valid() && unchanged(vars) && unchanged(vars.table)
      ensures entry.refcount == old(entry.refcount) - 1
      ensures visited == Selected(taken + [entry], pattern)
    {
      hide HashTable.Hash.Valid, HashTable.Hash.Full, UniqueNames;
      assert (taken + [entry])[..|taken|] == taken;
      visited := visited0;
      if Matches(entry.name, pattern) {
        visited := visited + [entry];
      }
      Release(entry, true);
    }

    /** One variable out of the queue, if there is one: its callback and the release */
    method TakeNext(pq: PriorityQueue.Queue<Entry?>, pattern: Option<string>, visited0: seq<Entry?>,
            ghost taken0: seq<Entry?>, ghost elems: seq<Entry?>, ghost stored: set<Entry>)
      returns (more: bool, visited: seq<Entry?>, ghost taken: seq<Entry?>)
      requires Valid() && (pattern.Some? ==> |pattern.value| > 0)
      requires pq.Valid() && pq.cmp == CompareEntries && stored == vars.Stored()
      requires UniqueNames(stored) && Draining(elems, taken0, pq.Elements(), stored)
      requires forall e :: e in stored && e in pq.Elements() ==> e.refcount >= 2
      requires visited0 == Selected(taken0, pattern)
      modifies vars, vars.table, stored`refcount, pq, pq.heap
      ensures Valid() && unchanged(vars) && unchanged(vars.table) && pq.Valid() && pq.heap == old(pq.heap)
      ensures Draining(elems, taken, pq.Elements(), stored) && visited == Selected(taken, pattern)
      ensures more == (old(pq.Elements()) != multiset{})
      ensures !more ==> pq.Elements() == multiset{}
      ensures more ==> |pq.Elements()| < |old(pq.Elements())|
      ensures forall e :: e in stored ==>
        e.refcount == old(e.refcount) - (if e in old(pq.Elements()) && e !in pq.Elements() then 1 else 0)
      ensures forall e :: e in pq.Elements() ==> e in old(pq.Elements())
    {
      hide VarTree.Valid, Probing.Objects, UniqueNames, PriorityQueue.Queue.Valid, PriorityQueue.Queue.Elements;
      hide Draining, IsListing, Matches, CompareEntries, Selected;
      ghost var before := pq.Elements();
      var obj := pq.RemoveNext();
      more, visited, taken := obj != None, visited0, taken0;
      if more {
        DrainStep(elems, taken0, before, pq.Elements(), stored, obj.value);
        visited := VisitNext(pattern, obj.value, visited0, taken0);
        taken := taken0 + [obj.value];
      }
    }

    /** Empties the queue in name order, giving each reference back after its callback. */
    method Drain(pq: PriorityQueue.Queue<Entry?>, pattern: Option<string>, ghost elems: seq<Entry?>)
      returns (visited: seq<Entry?>, ghost taken: seq<Entry?>)
      requires Valid() && (pattern.Some? ==> |pattern.value| > 0)
      requires pq.Valid() && pq.cmp == CompareEntries
      requires IsListing(elems, vars.Stored()) && pq.Elements() == multiset(elems)
      requires forall e :: e in vars.Stored() ==> e.refcount >= 2
      modifies vars, vars.table, vars.Stored()`refcount, pq, pq.heap
      ensures Valid() && unchanged(vars) && unchanged(vars.table)
      ensures forall e :: e in vars.Stored() ==> e.refcount == old(e.refcount) - 1
      ensures Draining(elems, taken, multiset{}, vars.Stored())
      ensures visited == Selected(taken, pattern)
    {
      hide VarTree.Valid, Probing.Objects, UniqueNames, PriorityQueue.Queue.Valid, PriorityQueue.Queue.Elements;
      hide Draining, IsListing, Matches, CompareEntries, Selected;
      ghost var stored: set<Entry> := vars.Stored();
      taken := [];
      visited := [];
      DrainStarts(elems, stored);
      NamesAreUnique();
      SelectedFromNone(pattern);
      while true
        invariant Valid() && unchanged(vars) && unchanged(vars.table)
        invariant pq.Valid() && pq.heap == old(pq.heap)
        invariant Draining(elems, taken, pq.Elements(), stored)
        invariant forall e :: e in stored ==> e.refcount == old(e.refcount) - (if e in pq.Elements() then 0 else 1)
        invariant visited == Selected(taken, pattern)
        decreases |pq.Elements()|
      {
        var more;
        more, visited, taken := TakeNext(pq, pattern, visited, taken, elems, stored);
        if !more {
          break;
        }
      }
    }

    /** Calls back for every variable whose name fits the pattern, in name order; visited are
        the entries called back for, in that order. The pattern is never empty. */
    method ForEach(pattern: Option<string>) returns (visited: seq<Entry?>)
      requires Valid() && (pattern.Some? ==> |pattern.value| > 0)
      modifies vars, vars.table, vars.Stored()`refcount
      ensures Valid() && unchanged(vars) && unchanged(vars.table)
      ensures forall e :: e in vars.Stored() ==> e.refcount == old(e.refcount)
      ensures forall k :: 0 <= k < |visited| ==> visited[k] in vars.Stored()
      ensures forall i, j :: 0 <= i < j < |visited| ==> Before(visited[i].name, visited[j].name)
      ensures pattern == None ==> forall e :: e in vars.Stored() ==> e in visited
      ensures pattern.Some? ==> var p, n := pattern.value, |pattern.value| - 1;
        forall e :: e in vars.Stored() ==> (e in visited <==> if p[n] == '*' then p[..n] <= e.name else p <= e.name)
    {
      hide HashTable.Hash.Valid, HashTable.Hash.Full, UniqueNames, PriorityQueue.Queue.Valid, Heaps.Contents;
      hide Heaps.Preorder, IsListing, Draining, Matches, CompareEntries, Increasing, Selected;
      ghost var stored: set<Entry> := vars.Stored();
      ghost var domain: iset<Entry?> := iset e | e in stored;
      EntriesAreOrdered(domain);
      var pq := new PriorityQueue.Queue<Entry?>(CompareEntries, domain);
      ghost var elems := QueueAll(pq);
      ghost var taken;
      visited, taken := Drain(pq, pattern, elems);
      SelectedInOrder(elems, taken, stored, pattern);
      InNameOrder(visited, stored);
      forall e | e in stored
        ensures pattern == None ==> Matches(e.name, pattern)
        ensures pattern.Some? ==> var p, n := pattern.value, |pattern.value| - 1;
          Matches(e.name, pattern) <==> if p[n] == '*' then p[..n] <= e.name else p <= e.name
      {
        MatchesPrefix(e.name, pattern);
      }
    }
  }

  lemma SnapshotIsListing(snapshot: seq<Entry>, entries: set<Entry>)
    requires forall o :: o in snapshot <==> o in entries
    requires forall i, j :: 0 <= i < j < |snapshot| ==> snapshot[i] != snapshot[j]
    ensures IsListing(snapshot, entries)
  {
  }

  ghost function Bag(elems: seq<Entry?>, n: nat): multiset<Entry?>
    requires n <= |elems|
  {
    multiset(elems[..n])
  }

  ghost function Members(elems: seq<Entry?>, n: nat): set<Entry?>
    requires n <= |elems|
  {
    set k | 0 <= k < n :: elems[k]
  }

  lemma NothingListed(elems: seq<Entry?>)
    ensures Bag(elems, 0) == multiset{} && Members(elems, 0) == {}
  {
  }

  lemma ListedNext(elems: seq<Entry?>, entries: set<Entry>, n: nat)
    requires IsListing(elems, entries) && n < |elems|
    ensures Bag(elems, n + 1) == Bag(elems, n) + multiset{elems[n]}
    ensures Members(elems, n + 1) == Members(elems, n) + {elems[n]} && elems[n] !in Members(elems, n)
  {
    assert elems[..n + 1] == elems[..n] + [elems[n]];
  }

  lemma AllListed(elems: seq<Entry?>, entries: set<Entry>)
    requires IsListing(elems, entries)
    ensures Bag(elems, |elems|) == multiset(elems)
    ensures forall e :: e in entries ==> e in Members(elems, |elems|)
  {
    assert elems[..|elems|] == elems;
    forall e | e in entries
      ensures e in Members(elems, |elems|)
    {
      var k :| 0 <= k < |elems| && elems[k] == e;
    }
  }

  lemma DrainStarts(elems: seq<Entry?>, entries: set<Entry>)
    requires IsListing(elems, entries)
    ensures Draining(elems, [], multiset(elems), entries)
    ensures forall e :: e in entries ==> e in multiset(elems)
  {
  }

  lemma SelectedFromNone(pattern: Option<string>)
    requires pattern.Some? ==> |pattern.value| > 0
    ensures Selected([], pattern) == []
  {
  }

  lemma QueuedOnce(elems: seq<Entry?>, taken: seq<Entry?>, rest: multiset<Entry?>, entries: set<Entry>, x: Entry?)
    requires IsListing(elems, entries) && multiset(taken) + rest == multiset(elems) && x in rest
    ensures x != null && x in entries && rest[x] == 1
  {
    Heaps.MultiplicityOne(elems);
    assert x in multiset(elems);
    assert x in elems;
    var k :| 0 <= k < |elems| && elems[k] == x;
  }

  lemma DrainStep(elems: seq<Entry?>, taken: seq<Entry?>, before: multiset<Entry?>, after: multiset<Entry?>,
          entries: set<Entry>, obj: Entry?)
    requires Draining(elems, taken, before, entries) && UniqueNames(entries)
    requires after + multiset{obj} == before
    requires forall x :: x in before ==> CompareEntries(obj, x) >= 0
    ensures obj != null && obj in entries && obj !in after
    ensures Draining(elems, taken + [obj], after, entries)
  {
    QueuedOnce(elems, taken, before, entries, obj);
    forall x | x in after
      ensures x != null && StrCmp(obj.name, x.name) < 0
    {
      assert x in before;
      QueuedOnce(elems, taken, before, entries, x);
      assert x != obj;
      StrCmpIsAntisymmetric(x.name, obj.name);
    }
  }

  lemma {:induction false} SelectedElements(taken: seq<Entry?>, pattern: Option<string>, e: Entry?)
    requires pattern.Some? ==> |pattern.value| > 0
    ensures e in Selected(taken, pattern) <==> e != null && e in taken && Matches(e.name, pattern)
  {
    if |taken| > 0 {
      var n := |taken| - 1;
      SelectedElements(taken[..n], pattern, e);
      assert taken == taken[..n] + [taken[n]];
    }
  }

  lemma {:induction false} SelectedIncreases(taken: seq<Entry?>, pattern: Option<string>)
    requires pattern.Some? ==> |pattern.value| > 0
    requires Increasing(taken) && null !in taken
    ensures Increasing(Selected(taken, pattern))
  {
    if |taken| > 0 {
      var n := |taken| - 1;
      var s := Selected(taken[..n], pattern);
      SelectedIncreases(taken[..n], pattern);
      forall k | 0 <= k < |s|
        ensures s[k] != null && StrCmp(s[k].name, taken[n].name) < 0
      {
        SelectedElements(taken[..n], pattern, s[k]);
        var j :| 0 <= j < n && taken[..n][j] == s[k];
        assert taken[j] == s[k];
      }
    }
  }

  lemma SelectedInOrder(elems: seq<Entry?>, taken: seq<Entry?>, entries: set<Entry>, pattern: Option<string>)
    requires pattern.Some? ==> |pattern.value| > 0
    requires Draining(elems, taken, multiset{}, entries)
    ensures Increasing(Selected(taken, pattern))
    ensures forall k :: 0 <= k < |Selected(taken, pattern)| ==> Selected(taken, pattern)[k] in entries
    ensures forall e :: e in entries ==> (e in Selected(taken, pattern) <==> Matches(e.name, pattern))
  {
    assert multiset(taken) == multiset(elems);
    forall k | 0 <= k < |taken|
      ensures taken[k] != null && taken[k] in entries
    {
      assert taken[k] in multiset(taken);
      assert taken[k] in elems;
    }
    SelectedIncreases(taken, pattern);
    var s := Selected(taken, pattern);
    forall e: Entry?
      ensures e in s <==> e != null && e in taken && Matches(e.name, pattern)
    {
      SelectedElements(taken, pattern, e);
    }
    forall e | e in entries
      ensures e in taken
    {
      assert e in multiset(elems);
    }
    forall k | 0 <= k < |s|
      ensures s[k] in entries
    {
      assert s[k] in s;
      SelectedElements(taken, pattern, s[k]);
    }
  }

  /** The drained part of a listing is in name order and precedes what is still queued. */
  ghost predicate Draining(elems: seq<Entry?>, taken: seq<Entry?>, rest: multiset<Entry?>, entries: set<Entry>) {
    && IsListing(elems, entries)
    && multiset(taken) + rest == multiset(elems)
    && Increasing(taken)
    && forall k, x :: 0 <= k < |taken| && x in rest && taken[k] != null && x != null ==>
      StrCmp(taken[k].name, x.name) < 0
  }

  function Selected(entries: seq<Entry?>, pattern: Option<string>): seq<Entry?>
    requires pattern.Some? ==> |pattern.value| > 0
  {
    if |entries| == 0 then []
    else
      var e := entries[|entries| - 1];
      Selected(entries[..|entries| - 1], pattern) + if e != null && Matches(e.name, pattern) then [e] else []
  }

  /** elems lists every entry once. */
  ghost predicate IsListing(elems: seq<Entry?>, entries: set<Entry>) {
    && (forall e :: e in entries ==> e in elems)
    && (forall k :: 0 <= k < |elems| ==> elems[k] != null && elems[k] in entries)
    && (forall i, j :: 0 <= i < j < |elems| ==> elems[i] != elems[j])
  }

  ghost predicate Increasing(entries: seq<Entry?>)
  {
    forall i, j :: 0 <= i < j < |entries| && entries[i] != null && entries[j] != null ==>
      StrCmp(entries[i].name, entries[j].name) < 0
  }

  lemma InNameOrder(visited: seq<Entry?>, entries: set<Entry>)
    requires Increasing(visited) && forall k :: 0 <= k < |visited| ==> visited[k] in entries
    ensures forall i, j :: 0 <= i < j < |visited| ==> Before(visited[i].name, visited[j].name)
  {
    forall i, j | 0 <= i < j < |visited|
      ensures Before(visited[i].name, visited[j].name)
    {
      StrCmpIsLexicographic(visited[i].name, visited[j].name);
    }
  }

  lemma NamedVariable(entries: set<Entry>, e: Entry)
    requires UniqueNames(entries) && e in entries
    ensures e.name in Variables(entries) && Variables(entries)[e.name] == (e.flags, e.value)
  {
  }

  lemma WithoutVariable(entries: set<Entry>, e: Entry)
    requires UniqueNames(entries) && e in entries
    ensures UniqueNames(entries - {e})
    ensures Variables(entries - {e}) == Variables(entries) - {e.name}
  {
  }

  lemma NewName(entries: set<Entry>, e: Entry)
    requires UniqueNames(entries) && e.name !in Variables(entries)
    ensures e !in entries && UniqueNames(entries + {e})
    ensures Variables(entries + {e}) == Variables(entries)[e.name := (e.flags, e.value)]
  {
    forall other | other in entries
      ensures other.name != e.name
    {
      assert other.name in Variables(entries);
    }
  }
}

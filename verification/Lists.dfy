/** The circular doubly linked list with an owner pointer and a size
    (airguitar/src/bse/src/bs_list.c). A node doubles as list head and as the timer that
    embeds it as its first member (airguitar/src/bse/inc/bs_tmo.h). */
module Lists {
  import opened Collections

  class Node {
    var next: Node?
    var prev: Node?
    var head: Node?
    var size: nat
    // The members a timer adds
    var lap: nat
    var msec: nat
    var func: bool

    /** A list head: bs_list_init */
    constructor Head()
      ensures Ring(this, []) && lap == msec == 0 && !func
    {
      next := this;
      prev := this;
      head := this;
      size := 0;
      lap, msec, func := 0, 0, false;
    }

    /** A timer that is in no list */
    constructor Timer()
      ensures next == prev == head == null
    {
      next, prev, head := null, null, null;
    }
  }

  ghost predicate Linked(a: Node, b: Node)
    reads a, b
  {
    a.next == b && b.prev == a
  }

  /** entries are, in order, the nodes between head and head. */
  ghost predicate Ring(head: Node, entries: seq<Node>)
    reads head, entries
  {
    && head.head == head && head.size == |entries|
    && head !in entries
    && Distinct(entries)
    && (forall k :: 0 <= k < |entries| ==> entries[k].head == head)
    && (if |entries| == 0 then Linked(head, head)
        else Linked(head, entries[0]) && Linked(entries[|entries| - 1], head))
    && (forall k :: 0 <= k < |entries| - 1 ==> Linked(entries[k], entries[k + 1]))
  }

  ghost function Members(entries: seq<Node>): set<Node> {
    set e | e in entries
  }

  function First(head: Node): Node?
    reads head
  {
    if head.next != head then head.next else null
  }

  function Last(head: Node): Node?
    reads head
  {
    if head.prev != head then head.prev else null
  }

  function Next(entry: Node): Node?
    reads entry
  {
    if entry.next != entry.head then entry.next else null
  }

  function Prev(entry: Node): Node?
    reads entry
  {
    if entry.prev != entry.head then entry.prev else null
  }

  /** Walking a list meets its entries in order, in both directions, and then ends. */
  lemma WalkMeetsEntries(head: Node, entries: seq<Node>)
    requires Ring(head, entries)
    ensures First(head) == if |entries| > 0 then entries[0] else null
    ensures Last(head) == if |entries| > 0 then entries[|entries| - 1] else null
    ensures forall i :: 0 <= i < |entries| ==> Next(entries[i]) == if i + 1 < |entries| then entries[i + 1] else null
    ensures forall i :: 0 <= i < |entries| ==> Prev(entries[i]) == if i > 0 then entries[i - 1] else null
  {
    forall i | 0 <= i < |entries|
      ensures Next(entries[i]) == if i + 1 < |entries| then entries[i + 1] else null
      ensures Prev(entries[i]) == if i > 0 then entries[i - 1] else null
    {
      if i + 1 < |entries| {
        assert Linked(entries[i], entries[i + 1]);
      }
      if i > 0 {
        assert Linked(entries[i - 1], entries[i]);
      }
    }
  }

  method InsertFirst(head: Node, entry: Node, ghost entries: seq<Node>)
    requires Ring(head, entries) && entry != head && entry !in entries
    modifies head`next, head`prev, head`size, entry`next, entry`prev, entry`head, Members(entries)`prev
    ensures Ring(head, [entry] + entries)
  {
    entry.next := head.next;
    entry.prev := head;
    entry.next.prev := entry;
    entry.prev.next := entry;
    entry.head := head;
    head.size := head.size + 1;
    ghost var now := [entry] + entries;
    forall k | 0 <= k < |now| - 1
      ensures Linked(now[k], now[k + 1])
    {
      assert k > 0 ==> old(Linked(entries[k - 1], entries[k]));
    }
  }

  method InsertLast(head: Node, entry: Node, ghost entries: seq<Node>)
    requires Ring(head, entries) && entry != head && entry !in entries
    modifies head`next, head`prev, head`size, entry`next, entry`prev, entry`head, Members(entries)`next
    ensures Ring(head, entries + [entry])
  {
    entry.prev := head.prev;
    entry.next := head;
    entry.next.prev := entry;
    entry.prev.next := entry;
    entry.head := head;
    head.size := head.size + 1;
    ghost var now := entries + [entry];
    forall k | 0 <= k < |now| - 1
      ensures Linked(now[k], now[k + 1])
    {
      assert k < |entries| - 1 ==> old(Linked(entries[k], entries[k + 1]));
    }
  }

  lemma OneLess(entries: seq<Node>, i: nat)
    requires i < |entries| && Distinct(entries)
    ensures var now := entries[..i] + entries[i + 1..];
      Distinct(now) && entries[i] !in now && forall k :: 0 <= k < |now| ==>
        now[k] == entries[if k < i then k else k + 1]
  {
  }

  /** The four writes of a removal: the neighbours, whichever they are, are joined. */
  method Unlink(entry: Node)
    requires entry.next != null && entry.prev != null && entry.head != null && entry.head != entry
    requires entry.head.size > 0 && entry.next != entry && entry.prev != entry
    modifies entry.prev`next, entry.next`prev, entry.head`size, entry`head
    ensures old(entry.prev).next == old(entry.next) && old(entry.next).prev == old(entry.prev)
    ensures old(entry.head).size == old(entry.head.size) - 1 && entry.head == null
  {
    entry.next.prev := entry.prev;
    entry.prev.next := entry.next;
    entry.head.size := entry.head.size - 1;
    entry.head := null;
  }

  method Remove(entry: Node, ghost head: Node, ghost entries: seq<Node>, ghost i: nat)
    requires Ring(head, entries) && i < |entries| && entries[i] == entry
    modifies head`next, head`prev, head`size, entry`head, Members(entries)`next, Members(entries)`prev
    ensures Ring(head, entries[..i] + entries[i + 1..])
    ensures entry.head == null
  {
    assert i > 0 ==> Linked(entries[i - 1], entries[i]);
    assert i + 1 < |entries| ==> Linked(entries[i], entries[i + 1]);
    Unlink(entry);
    ghost var now := entries[..i] + entries[i + 1..];
    OneLess(entries, i);
    hide Distinct;
    forall k | 0 <= k < |now| - 1
      ensures Linked(now[k], now[k + 1])
    {
      assert k < i - 1 ==> old(Linked(entries[k], entries[k + 1]));
      assert k >= i ==> old(Linked(entries[k + 1], entries[k + 2]));
    }
  }
}

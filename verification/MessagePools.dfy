/** Message queues over a fixed pool of nodes: a singly linked list of free nodes and one of
    messages on their way (paperplane/src/pp_base/pp_base.c). */
module MessagePools {
  import opened Collections

  class Node {
    var next: Node?
    var length: nat
    const data: array<char>

    constructor (size: nat)
      ensures fresh(data) && data.Length == size && length == 0
    {
      next, length := null, 0;
      data := new char[size];
    }

    ghost function Message(): seq<char>
      reads `length, data
      requires length <= data.Length
    {
      data[..length]
    }
  }

  class SList {
    var head: Node?
    var tail: Node?

    constructor ()
      ensures Chain([])
    {
      head, tail := null, null;
    }

    /** The list holds exactly these nodes: it ends, and no node is in it twice. */
    ghost predicate Chain(nodes: seq<Node>)
      reads this, nodes`next
    {
      && Distinct(nodes)
      && (|nodes| == 0 ==> head == null && tail == null)
      && (|nodes| > 0 ==> head == nodes[0] && tail == nodes[|nodes| - 1] && nodes[|nodes| - 1].next == null)
      && forall i :: 0 <= i < |nodes| - 1 ==> nodes[i].next == nodes[i + 1]
    }

    method Put(node: Node, ghost nodes: seq<Node>)
      requires Chain(nodes) && node !in nodes
      modifies this, node`next, nodes`next
      ensures Chain(nodes + [node])
    {
      node.next := null;
      if head == null {
        head := node;
        tail := node;
      } else {
        tail.next := node;
        tail := node;
      }
    }

    method Get(ghost nodes: seq<Node>) returns (node: Node?)
      requires Chain(nodes)
      modifies this
      ensures |nodes| == 0 ==> node == null && Chain(nodes)
      ensures |nodes| > 0 ==> node == nodes[0] && Chain(nodes[1..])
    {
      node := head;
      if node != null {
        assert |nodes| > 1 ==> nodes[0].next == nodes[1] && nodes[0] != nodes[|nodes| - 1];
        head := node.next;
        if tail == node {
          tail := null;
        }
      }
    }

    method IsEmpty(ghost nodes: seq<Node>) returns (empty: bool)
      requires Chain(nodes)
      ensures empty <==> nodes == []
    {
      empty := head == null;
    }
  }

  /** Every node of the pool is once in one of the two lists, or in hand. */
  ghost predicate Partition(a: seq<Node>, b: seq<Node>, hand: multiset<Node>, pool: set<Node>) {
    multiset(a) + multiset(b) + hand == multiset(pool)
  }

  lemma {:induction false} DistinctIsPool(nodes: seq<Node>)
    requires Distinct(nodes)
    ensures multiset(nodes) == multiset(set n | n in nodes)
  {
    if |nodes| > 0 {
      var k := |nodes| - 1;
      DistinctIsPool(nodes[..k]);
      assert nodes == nodes[..k] + [nodes[k]];
      assert (set n | n in nodes) == (set n | n in nodes[..k]) + {nodes[k]};
    }
  }

  lemma PartitionCounts(a: seq<Node>, b: seq<Node>, hand: multiset<Node>, pool: set<Node>)
    requires Partition(a, b, hand, pool)
    ensures |a| + |b| + |hand| == |pool|
  {
    assert |multiset(a) + multiset(b) + hand| == |multiset(pool)|;
  }

  lemma NoneTwice(a: seq<Node>, b: seq<Node>, hand: multiset<Node>, pool: set<Node>, n: Node)
    requires Partition(a, b, hand, pool)
    ensures multiset(a)[n] + multiset(b)[n] + hand[n] == if n in pool then 1 else 0
  {
    assert (multiset(a) + multiset(b) + hand)[n] == multiset(pool)[n];
  }

  lemma FirstTaken(a: seq<Node>, b: seq<Node>, pool: set<Node>)
    requires Partition(a, b, multiset{}, pool) && |b| > 0
    ensures Partition(a, b[1..], multiset{b[0]}, pool)
  {
    assert b == [b[0]] + b[1..];
  }

  lemma Mirror(a: seq<Node>, b: seq<Node>, hand: multiset<Node>, pool: set<Node>)
    requires Partition(a, b, hand, pool)
    ensures Partition(b, a, hand, pool)
  {
  }

  lemma OneAppended(a: seq<Node>, b: seq<Node>, node: Node, pool: set<Node>)
    requires Partition(a, b, multiset{node}, pool)
    ensures Partition(a + [node], b, multiset{}, pool) && Partition(b, a + [node], multiset{}, pool)
  {
    assert multiset(a + [node]) == multiset(a) + multiset{node};
  }

  /** A node in hand is in neither list, and no node is in both. */
  lemma Separate(a: seq<Node>, b: seq<Node>, node: Node, pool: set<Node>)
    requires Partition(a, b, multiset{node}, pool)
    ensures node in pool && node !in a && node !in b
    ensures forall n <- a :: n in pool && n !in b
    ensures forall n <- b :: n in pool && n !in a
  {
    NoneTwice(a, b, multiset{node}, pool, node);
    forall n | n in a || n in b
      ensures n in pool && !(n in a && n in b)
    {
      NoneTwice(a, b, multiset{node}, pool, n);
      assert n in a ==> n in multiset(a);
      assert n in b ==> n in multiset(b);
    }
    assert node !in multiset(a) && node !in multiset(b);
  }

  class MessageQueue {
    const number: nat
    const length: nat
    const queuedList: SList
    const unqueuedList: SList
    ghost const pool: set<Node>
    ghost var queued: seq<Node>
    ghost var unqueued: seq<Node>

    ghost predicate OwnData()
    {
      && (forall n <- pool :: n.data.Length == length)
      && forall m, n :: m in pool && n in pool && m != n ==> m.data != n.data
    }

    ghost predicate Lengths()
      reads this, queued`length, unqueued`length
    {
      && (forall n <- queued :: 0 < n.length <= length)
      && forall n <- unqueued :: n.length == 0
    }

    ghost predicate Chains()
      reads this, queuedList, unqueuedList, queued`next, unqueued`next
    {
      queuedList != unqueuedList && queuedList.Chain(queued) && unqueuedList.Chain(unqueued)
    }

    ghost predicate Valid()
      reads this, queuedList, unqueuedList, queued, unqueued
    {
      Partition(queued, unqueued, multiset{}, pool) && OwnData() && Lengths() && Chains() && |pool| == number
    }

    ghost predicate Holds(messages: seq<seq<char>>)
      reads this, queued`length, set n | n in queued :: n.data
    {
      && |messages| == |queued|
      && forall i :: 0 <= i < |queued| ==>
        queued[i].length <= queued[i].data.Length && messages[i] == queued[i].Message()
    }

    constructor (number: nat, length: nat)
      ensures Valid() && Holds([]) && this.number == number && this.length == length
      ensures fresh(queuedList) && fresh(unqueuedList) && fresh(pool) && forall n <- pool :: fresh(n.data)
    {
      var other := new SList();
      var list := new SList();
      ghost var nodes := AddNodes(list, number, length);
      this.number, this.length := number, length;
      queuedList, unqueuedList := other, list;
      queued, unqueued, pool := [], nodes, set n | n in nodes;
      new;
      hide SList.Chain;
      DistinctIsPool(nodes);
      PartitionCounts([], nodes, multiset{}, pool);
    }

    static method AddNodes(list: SList, number: nat, length: nat) returns (ghost nodes: seq<Node>)
      requires list.Chain([])
      modifies list
      ensures |nodes| == number && list.Chain(nodes)
      ensures forall i :: 0 <= i < number ==> fresh(nodes[i]) && fresh(nodes[i].data)
      ensures forall i :: 0 <= i < number ==> nodes[i].length == 0 && nodes[i].data.Length == length
      ensures forall i, j :: 0 <= i < j < number ==> nodes[i].data != nodes[j].data
    {
      hide SList.Chain;
      nodes := [];
      for nx := 0 to number
        invariant |nodes| == nx && list.Chain(nodes)
        invariant forall i :: 0 <= i < nx ==> fresh(nodes[i]) && fresh(nodes[i].data)
        invariant forall i :: 0 <= i < nx ==> nodes[i].length == 0 && nodes[i].data.Length == length
        invariant forall i, j :: 0 <= i < j < nx ==> nodes[i].data != nodes[j].data
      {
        nodes := AddNode(list, length, nodes);
      }
    }

    static method AddNode(list: SList, length: nat, ghost nodes: seq<Node>) returns (ghost more: seq<Node>)
      requires list.Chain(nodes)
      modifies list, nodes`next
      ensures |more| == |nodes| + 1 && more[..|nodes|] == nodes && list.Chain(more)
      ensures var n := more[|nodes|]; fresh(n) && fresh(n.data) && n.length == 0 && n.data.Length == length
    {
      var node := new Node(length);
      list.Put(node, nodes);
      more := nodes + [node];
    }

    /** A free node, if there is one */
    method TakeFree() returns (node: Node?)
      requires Valid()
      modifies `unqueued, unqueuedList
      ensures Lengths() && Chains()
      ensures node == null <==> |old(unqueued)| == 0
      ensures node == null ==> Partition(queued, unqueued, multiset{}, pool) && unqueued == old(unqueued)
      ensures node != null ==> Partition(queued, unqueued, multiset{node}, pool) && node.length == 0
      ensures node != null ==> node in pool && node.data.Length == length
    {
      hide Partition, SList.Chain;
      node := unqueuedList.Get(unqueued);
      if node != null {
        FirstTaken(queued, unqueued, pool);
        unqueued := unqueued[1..];
        Separate(queued, unqueued, node, pool);
      }
    }

    method PutQueued(node: Node, ghost messages: seq<seq<char>>)
      requires Partition(queued, unqueued, multiset{node}, pool)
      requires OwnData() && Lengths() && Chains() && Holds(messages)
      requires 0 < node.length <= length && |pool| == number
      requires node.data.Length == length
      modifies `queued, queuedList, pool`next
      ensures Valid() && queued == old(queued) + [node] && Holds(messages + [node.Message()])
    {
      hide Partition, SList.Chain;
      OneAppended(queued, unqueued, node, pool);
      Separate(queued, unqueued, node, pool);
      queuedList.Put(node, queued);
      queued := queued + [node];
    }

    method Fill(node: Node, message: array<char>, size: nat, ghost messages: seq<seq<char>>)
      requires Partition(queued, unqueued, multiset{node}, pool)
      requires OwnData() && Lengths() && Chains() && Holds(messages)
      requires node.data.Length == length && size <= message.Length && size <= length && node.data != message
      modifies node`length, node.data
      ensures node.length == size && node.Message() == message[..size]
      ensures Lengths() && Chains() && Holds(messages)
    {
      hide Partition, SList.Chain;
      Separate(queued, unqueued, node, pool);
      forall k | 0 <= k < size {
        node.data[k] := message[k];
      }
      node.length := size;
    }

    /** A message is taken when it has a proper length and a node is free. */
    method Send(message: array<char>, size: int, ghost messages: seq<seq<char>>) returns (ok: bool)
      requires Valid() && Holds(messages) && size <= message.Length && forall n <- pool :: n.data != message
      modifies `queued, `unqueued, queuedList, unqueuedList, pool, set n | n in pool :: n.data
      ensures Valid()
      ensures ok <==> 0 < size <= length && |messages| < number
      ensures Holds(if ok then messages + [message[..size]] else messages)
      ensures size >= 0 ==> Holds(After(number, length, messages, Op.Send(message[..size])))
    {
      hide Partition, SList.Chain, MessageQueue.OwnData, MessageQueue.Lengths, MessageQueue.Chains;
      if size <= 0 || size > length {
        return false;
      }
      PartitionCounts(queued, unqueued, multiset{}, pool);
      var node := TakeFree();
      if node == null {
        return false;
      }
      Fill(node, message, size, messages);
      PutQueued(node, messages);
      return true;
    }

    /** The oldest message's node, if there is one; it still holds the message. */
    method TakeQueued(ghost messages: seq<seq<char>>) returns (node: Node?)
      requires Valid() && Holds(messages)
      modifies `queued, queuedList
      ensures Lengths() && Chains()
      ensures node == null <==> |messages| == 0
      ensures node == null ==> Partition(queued, unqueued, multiset{}, pool) && Holds(messages)
      ensures node != null ==> Partition(unqueued, queued, multiset{node}, pool) && node in pool
      ensures node != null ==> node.length <= node.data.Length && node.Message() == messages[0] && Holds(messages[1..])
    {
      hide Partition, SList.Chain, MessageQueue.OwnData, Distinct;
      if |messages| > 0 {
        FirstHeld(messages);
      }
      node := queuedList.Get(queued);
      if node != null {
        DropFirst(node, messages);
      }
    }

    lemma FirstHeld(messages: seq<seq<char>>)
      requires Holds(messages) && |messages| > 0
      ensures |queued| > 0 && queued[0].length <= queued[0].data.Length && queued[0].Message() == messages[0]
    {
    }

    /** Ghost work: the first queued node is in hand. */
    ghost method DropFirst(node: Node, messages: seq<seq<char>>)
      requires Partition(queued, unqueued, multiset{}, pool) && Lengths() && Holds(messages)
      requires |queued| > 0 && node == queued[0]
      modifies `queued
      ensures queued == old(queued)[1..] && Lengths() && Holds(messages[1..])
      ensures Partition(unqueued, queued, multiset{node}, pool) && node in pool
    {
      hide Partition;
      Mirror(queued, unqueued, multiset{}, pool);
      FirstTaken(unqueued, queued, pool);
      Separate(unqueued, queued[1..], node, pool);
      queued := queued[1..];
    }

    method PutFree(node: Node, ghost messages: seq<seq<char>>)
      requires Partition(unqueued, queued, multiset{node}, pool)
      requires OwnData() && Lengths() && Chains() && Holds(messages)
      requires node.length == 0 && |pool| == number
      modifies `unqueued, unqueuedList, pool`next
      ensures Valid() && Holds(messages)
    {
      hide Partition, SList.Chain;
      OneAppended(unqueued, queued, node, pool);
      Separate(unqueued, queued, node, pool);
      unqueuedList.Put(node, unqueued);
      unqueued := unqueued + [node];
    }

    /** Copies the message out and empties the node. */
    method Empty(node: Node, message: array<char>, n: nat, ghost messages: seq<seq<char>>)
      requires Partition(unqueued, queued, multiset{node}, pool)
      requires OwnData() && Lengths() && Chains() && Holds(messages)
      requires n <= node.length <= node.data.Length && n <= message.Length
      requires forall m <- pool :: m.data != message
      modifies node`length, message
      ensures node.length == 0 && Lengths() && Chains() && Holds(messages)
      ensures message[..] == old(node.Message())[..n] + old(message[n..])
    {
      hide Partition, SList.Chain;
      Separate(unqueued, queued, node, pool);
      forall k | 0 <= k < n {
        message[k] := node.data[k];
      }
      node.length := 0;
    }

    /** The oldest message, cut to the size asked for; -1 when there is none. */
    method Receive(message: array<char>, size: int, ghost messages: seq<seq<char>>) returns (lx: int)
      requires Valid() && Holds(messages) && size <= message.Length && forall n <- pool :: n.data != message
      modifies `queued, `unqueued, queuedList, unqueuedList, pool, message
      ensures Valid()
      ensures size <= 0 || |messages| == 0 ==> lx == -1 && Holds(messages) && message[..] == old(message[..])
      ensures size > 0 && |messages| > 0 ==> var m := |messages[0]|; lx <= size && lx <= m && (lx == size || lx == m)
      ensures Holds(After(number, length, messages, Op.Receive(size)))
      ensures size > 0 && |messages| > 0 ==> Holds(messages[1..])
      ensures size > 0 && |messages| > 0 ==> message[..] == messages[0][..lx] + old(message[lx..])
    {
      hide Partition, SList.Chain, MessageQueue.OwnData, MessageQueue.Lengths, MessageQueue.Chains;
      if size <= 0 {
        return -1;
      }
      var node := TakeQueued(messages);
      if node == null {
        return -1;
      }
      lx := Min(size, node.length);
      Empty(node, message, lx, messages[1..]);
      PutFree(node, messages[1..]);
    }
  }

  // ---------------------------------------------------------------- whole runs

  datatype Op = Send(message: seq<char>) | Receive(size: int)

  predicate Accepts(number: nat, length: nat, q: seq<seq<char>>, m: seq<char>) {
    0 < |m| <= length && |q| < number
  }

  predicate Takes(q: seq<seq<char>>, size: int) {
    size > 0 && |q| > 0
  }

  /** The messages under way after one operation, as Send and Receive leave them */
  function After(number: nat, length: nat, q: seq<seq<char>>, op: Op): seq<seq<char>> {
    match op
    case Send(m) => if Accepts(number, length, q, m) then q + [m] else q
    case Receive(size) => if Takes(q, size) then q[1..] else q
  }

  function Accepted(number: nat, length: nat, q: seq<seq<char>>, ops: seq<Op>): seq<seq<char>>
    decreases |ops|
  {
    if |ops| == 0 then []
    else
      (if ops[0].Send? && Accepts(number, length, q, ops[0].message) then [ops[0].message] else [])
      + Accepted(number, length, After(number, length, q, ops[0]), ops[1..])
  }

  /** Each receive that gets a message, with the size it asks for */
  function Received(number: nat, length: nat, q: seq<seq<char>>, ops: seq<Op>): seq<(seq<char>, int)>
    decreases |ops|
  {
    if |ops| == 0 then []
    else
      (if ops[0].Receive? && Takes(q, ops[0].size)
       then [(q[0][..Min(ops[0].size, |q[0]|)], ops[0].size)] else [])
      + Received(number, length, After(number, length, q, ops[0]), ops[1..])
  }

  /** Message number i was received as number i, whole or cut to the size asked for. */
  ghost predicate InOrder(sent: seq<seq<char>>, got: seq<(seq<char>, int)>) {
    && |got| <= |sent|
    && forall i :: 0 <= i < |got| ==> got[i].1 > 0 && got[i].0 <= sent[i] && |got[i].0| <= got[i].1 &&
                                      (got[i].0 == sent[i] || |got[i].0| == got[i].1)
  }

  lemma InOrderStep(sent: seq<seq<char>>, got: seq<(seq<char>, int)>, m: seq<char>, size: int)
    requires InOrder(sent, got) && size > 0
    ensures InOrder([m] + sent, [(m[..Min(size, |m|)], size)] + got)
  {
  }

  lemma OneReceived(number: nat, length: nat, q: seq<seq<char>>, size: int, ops: seq<Op>)
    requires Takes(q, size)
    requires InOrder(q[1..] + Accepted(number, length, q[1..], ops), Received(number, length, q[1..], ops))
    ensures var all := [Receive(size)] + ops;
      InOrder(q + Accepted(number, length, q, all), Received(number, length, q, all))
  {
    var all := [Receive(size)] + ops;
    assert all[1..] == ops;
    var a, r := Accepted(number, length, q[1..], ops), Received(number, length, q[1..], ops);
    assert Accepted(number, length, q, all) == [] + a;
    assert Received(number, length, q, all) == [(q[0][..Min(size, |q[0]|)], size)] + r;
    hide Accepted, Received, InOrder;
    assert q + ([] + a) == [q[0]] + (q[1..] + a);
    InOrderStep(q[1..] + a, r, q[0], size);
  }

  lemma NoneReceived(number: nat, length: nat, q: seq<seq<char>>, op: Op, ops: seq<Op>)
    requires !(op.Receive? && Takes(q, op.size))
    requires var next := After(number, length, q, op);
      InOrder(next + Accepted(number, length, next, ops), Received(number, length, next, ops))
    ensures var all := [op] + ops;
      InOrder(q + Accepted(number, length, q, all), Received(number, length, q, all))
  {
    var all, next := [op] + ops, After(number, length, q, op);
    assert all[1..] == ops;
    var more := if op.Send? && Accepts(number, length, q, op.message) then [op.message] else [];
    assert Accepted(number, length, q, all) == more + Accepted(number, length, next, ops);
    assert Received(number, length, q, all) == [] + Received(number, length, next, ops);
    assert next == q + more;
    hide Accepted, Received, InOrder, After;
    Regroup(q, more, Accepted(number, length, next, ops));
    assert [] + Received(number, length, next, ops) == Received(number, length, next, ops);
  }

  /** Receives return the accepted messages in the order sent, each once and cut to the size
      asked for. */
  lemma {:induction false} SentOrder(number: nat, length: nat, q: seq<seq<char>>, ops: seq<Op>)
    ensures InOrder(q + Accepted(number, length, q, ops), Received(number, length, q, ops))
    decreases |ops|
  {
    if |ops| > 0 {
      var op := ops[0];
      var next := After(number, length, q, op);
      assert ops == [op] + ops[1..];
      assert op.Receive? && Takes(q, op.size) ==> op == Receive(op.size) && next == q[1..];
      hide Accepted, Received, InOrder, After;
      SentOrder(number, length, next, ops[1..]);
      if op.Receive? && Takes(q, op.size) {
        OneReceived(number, length, q, op.size, ops[1..]);
      } else {
        NoneReceived(number, length, q, op, ops[1..]);
      }
    }
  }
}

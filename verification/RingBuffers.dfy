/** The byte ring: one cell stays free so that from == into means empty
    (paperplane/src/pp_base/pp_base.c). */
module RingBuffers {
  import opened Collections

  /** The bytes from one index up to another, around the end of the buffer */
  function Stored(b: seq<char>, from: nat, into: nat): (q: seq<char>)
    requires from < |b| && into < |b|
    ensures |q| == if from <= into then into - from else |b| - from + into
    ensures forall k :: 0 <= k < |q| ==> q[k] == b[if from + k < |b| then from + k else from + k - |b|]
  {
    if from <= into then b[from..into] else b[from..] + b[..into]
  }

  /** b with s copied over it from index at on */
  function Written(b: seq<char>, at: nat, s: seq<char>): (w: seq<char>)
    requires at + |s| <= |b|
    ensures |w| == |b| && forall k :: 0 <= k < |b| ==> w[k] == if at <= k < at + |s| then s[k - at] else b[k]
  {
    b[..at] + s + b[at + |s|..]
  }

  lemma PutStraight(b: seq<char>, from: nat, into: nat, s: seq<char>)
    requires from < |b| && into + |s| < |b| && (from > into ==> into + |s| < from)
    ensures Stored(Written(b, into, s), from, into + |s|) == Stored(b, from, into) + s
  {
    hide Stored, Written;
  }

  lemma PutAround(b: seq<char>, from: nat, into: nat, s: seq<char>, n: nat)
    requires from <= into < |b| && n == |b| - into <= |s| && |s| - n < from
    ensures Stored(Written(Written(b, into, s[..n]), 0, s[n..]), from, |s| - n) == Stored(b, from, into) + s
  {
    hide Stored, Written;
  }

  lemma GetStraight(b: seq<char>, from: nat, into: nat, n: nat)
    requires from < |b| && into < |b| && from + n < |b| && (from <= into ==> from + n <= into)
    ensures n <= |Stored(b, from, into)| && b[from..from + n] == Stored(b, from, into)[..n]
    ensures Stored(b, from + n, into) == Stored(b, from, into)[n..]
  {
    hide Stored;
  }

  lemma GetAround(b: seq<char>, from: nat, into: nat, n: nat, t: seq<char>)
    requires into < from < |b| && n <= into && |b| - from + n <= |t|
    ensures Stored(b, n, into) == Stored(b, from, into)[|b| - from + n..]
    ensures Written(Written(t, 0, b[from..]), |b| - from, b[..n]) ==
      Written(t, 0, Stored(b, from, into)[..|b| - from + n])
  {
    WrittenTwice(t, b[from..], b[..n]);
    hide Stored, Written;
    assert b[from..] + b[..n] == Stored(b, from, into)[..|b| - from + n];
  }

  lemma WrittenTwice(t: seq<char>, p: seq<char>, q: seq<char>)
    requires |p| + |q| <= |t|
    ensures Written(Written(t, 0, p), |p|, q) == Written(t, 0, p + q)
  {
    hide Written;
  }

  // ---------------------------------------------------------------- the queue it stands for

  datatype Op = Write(bytes: seq<char>) | Read(size: nat)

  /** A first-in first-out queue that takes in no more than its capacity */
  function After(capacity: nat, q: seq<char>, op: Op): seq<char>
    requires |q| <= capacity
  {
    match op
    case Write(b) => q + b[..Min(|b|, capacity - |q|)]
    case Read(n) => q[Min(n, |q|)..]
  }

  lemma AfterWrite(capacity: nat, q: seq<char>, source: seq<char>, size: nat)
    requires |q| <= capacity && size <= |source|
    ensures After(capacity, q, Write(source[..size])) == q + source[..Min(size, capacity - |q|)]
  {
    assert forall k :: 0 <= k <= size ==> source[..size][..k] == source[..k];
  }

  lemma AfterRead(capacity: nat, q: seq<char>, size: nat)
    requires |q| <= capacity
    ensures After(capacity, q, Read(size)) == q[Min(size, |q|)..]
  {
  }

  class Ring {
    const buff: array<char>
    var into: nat
    var from: nat

    ghost predicate Valid()
      reads this
    {
      into < buff.Length && from < buff.Length
    }

    /** The bytes stored, oldest first */
    ghost function Contents(): seq<char>
      reads this, buff
      requires Valid()
    {
      Stored(buff[..], from, into)
    }

    constructor (size: nat)
      requires size > 0
      ensures Valid() && fresh(buff) && buff.Length == size && Contents() == []
    {
      buff := new char[size];
      into, from := 0, 0;
    }

    method FreeBytes() returns (n: int)
      requires Valid()
      ensures n == buff.Length - 1 - |Contents()|
    {
      n := from - into - 1;
      if n < 0 {
        n := n + buff.Length;
      }
    }

    method CopyIn(at: nat, source: array<char>, first: nat, n: nat)
      requires source != buff && at + n <= buff.Length && first + n <= source.Length
      modifies buff
      ensures buff[..] == Written(old(buff[..]), at, source[first..first + n])
    {
      forall k | 0 <= k < n {
        buff[at + k] := source[first + k];
      }
    }

    method CopyOut(at: nat, target: array<char>, first: nat, n: nat)
      requires target != buff && at + n <= buff.Length && first + n <= target.Length
      modifies target
      ensures target[..] == Written(old(target[..]), first, buff[..][at..at + n])
    {
      forall k | 0 <= k < n {
        target[first + k] := buff[at + k];
      }
    }

    /** Appends the first bytes of the source, as many as there is room for. */
    method Put(source: array<char>, size: nat) returns (n: nat)
      requires Valid() && source != buff && size <= source.Length
      modifies `into, buff
      ensures Valid()
      ensures var free := buff.Length - 1 - |old(Contents())|; n <= size && n <= free && (n == size || n == free)
      ensures Contents() == After(buff.Length - 1, old(Contents()), Write(source[..size]))
      ensures Contents() == old(Contents()) + source[..n]
    {
      hide Stored, Written, After;
      ghost var b := buff[..];
      AfterWrite(buff.Length - 1, Contents(), source[..], size);
      if from > into {
        n := Min(size, from - into - 1);
        PutStraight(b, from, into, source[0..n]);
        CopyIn(into, source, 0, n);
        into := into + n;
      } else if from == 0 {
        n := Min(size, buff.Length - into - 1);
        PutStraight(b, from, into, source[0..n]);
        CopyIn(into, source, 0, n);
        into := into + n;
      } else {
        n := PutToEnd(source, size);
      }
    }

    /** The free cells may go on from the end of the buffer to its beginning. */
    method PutToEnd(source: array<char>, size: nat) returns (n: nat)
      requires Valid() && source != buff && size <= source.Length && 0 < from <= into
      modifies `into, buff
      ensures Valid()
      ensures var free := buff.Length - 1 - |old(Contents())|; n <= size && n <= free && (n == size || n == free)
      ensures Contents() == old(Contents()) + source[..n]
    {
      hide Stored, Written;
      ghost var b := buff[..];
      n := Min(size, buff.Length - into);
      CopyIn(into, source, 0, n);
      var into2 := into + n;
      if into2 == buff.Length {
        var n2 := Min(size - n, from - 1);
        ghost var s := source[..n + n2];
        assert s[..n] == source[0..n] && s[n..] == source[n..n + n2];
        PutAround(b, from, into, s, n);
        CopyIn(0, source, n, n2);
        into := n2;
        n := n + n2;
      } else {
        PutStraight(b, from, into, source[0..n]);
        into := into2;
      }
    }

    /** Moves the oldest bytes to the target, as many as there are. */
    method Get(target: array<char>, size: nat) returns (n: nat)
      requires Valid() && target != buff && size <= target.Length
      modifies `from, target
      ensures Valid() && n <= size && n <= |old(Contents())| && (n == size || n == |old(Contents())|)
      ensures Contents() == After(buff.Length - 1, old(Contents()), Read(size)) == old(Contents())[n..]
      ensures target[..] == old(Contents())[..n] + old(target[n..])
    {
      hide Stored, Written, After;
      ghost var b := buff[..];
      AfterRead(buff.Length - 1, Contents(), size);
      if into >= from {
        n := Min(size, into - from);
        GetStraight(b, from, into, n);
        CopyOut(from, target, 0, n);
        from := from + n;
      } else {
        n := GetToEnd(target, size);
      }
    }

    /** The bytes may go on from the end of the buffer to its beginning. */
    method GetToEnd(target: array<char>, size: nat) returns (n: nat)
      requires Valid() && target != buff && size <= target.Length && into < from
      modifies `from, target
      ensures Valid() && n <= size && n <= |old(Contents())| && (n == size || n == |old(Contents())|)
      ensures Contents() == old(Contents())[n..]
      ensures target[..] == old(Contents())[..n] + old(target[n..])
    {
      hide Stored, Written;
      ghost var b, t := buff[..], target[..];
      n := Min(size, buff.Length - from);
      CopyOut(from, target, 0, n);
      var from2 := from + n;
      if from2 == buff.Length {
        assert b[from..from + n] == b[from..];
        var n2 := GetFromStart(target, size - n, n, t);
        n := n + n2;
      } else {
        GetStraight(b, from, into, n);
        from := from2;
      }
    }

    /** The second part: target already begins with the bytes up to the end of the buffer. */
    method GetFromStart(target: array<char>, size: nat, first: nat, ghost t: seq<char>) returns (n: nat)
      requires Valid() && target != buff && into < from && first == buff.Length - from && first + size <= target.Length
      requires |t| == target.Length && target[..] == Written(t, 0, buff[..][from..])
      modifies `from, target
      ensures Valid() && n == Min(size, into)
      ensures Contents() == old(Contents())[first + n..]
      ensures target[..] == Written(t, 0, old(Contents())[..first + n])
    {
      hide Stored, Written;
      n := Min(size, into);
      GetAround(buff[..], from, into, n, t);
      assert buff[..][0..n] == buff[..][..n];
      CopyOut(0, target, first, n);
      from := n;
    }
  }

  // ---------------------------------------------------------------- whole runs

  function Accepted(capacity: nat, q: seq<char>, ops: seq<Op>): seq<char>
    requires |q| <= capacity
    decreases |ops|
  {
    if |ops| == 0 then []
    else
      (match ops[0]
       case Write(b) => b[..Min(|b|, capacity - |q|)]
       case Read(_) => [])
      + Accepted(capacity, After(capacity, q, ops[0]), ops[1..])
  }

  function Delivered(capacity: nat, q: seq<char>, ops: seq<Op>): seq<char>
    requires |q| <= capacity
    decreases |ops|
  {
    if |ops| == 0 then []
    else
      (match ops[0]
       case Write(_) => []
       case Read(n) => q[..Min(n, |q|)])
      + Delivered(capacity, After(capacity, q, ops[0]), ops[1..])
  }

  function Left(capacity: nat, q: seq<char>, ops: seq<Op>): (r: seq<char>)
    requires |q| <= capacity
    ensures |r| <= capacity
    decreases |ops|
  {
    if |ops| == 0 then q else Left(capacity, After(capacity, q, ops[0]), ops[1..])
  }

  /** Over any run the bytes delivered and those still stored are the bytes accepted, in order. */
  lemma {:induction false} NothingLostOrReordered(capacity: nat, q: seq<char>, ops: seq<Op>)
    requires |q| <= capacity
    ensures q + Accepted(capacity, q, ops) == Delivered(capacity, q, ops) + Left(capacity, q, ops)
    decreases |ops|
  {
    if |ops| > 0 {
      var next := After(capacity, q, ops[0]);
      NothingLostOrReordered(capacity, next, ops[1..]);
      match ops[0]
      case Write(b) => LostNothingInWrite(capacity, q, b, ops);
      case Read(n) => LostNothingInRead(capacity, q, n, ops);
    }
  }

  ghost predicate Conserved(capacity: nat, q: seq<char>, ops: seq<Op>)
    requires |q| <= capacity
  {
    q + Accepted(capacity, q, ops) == Delivered(capacity, q, ops) + Left(capacity, q, ops)
  }

  lemma LostNothingInWrite(capacity: nat, q: seq<char>, b: seq<char>, ops: seq<Op>)
    requires |q| <= capacity && |ops| > 0 && ops[0] == Write(b)
    requires Conserved(capacity, After(capacity, q, ops[0]), ops[1..])
    ensures Conserved(capacity, q, ops)
  {
    var s := b[..Min(|b|, capacity - |q|)];
    var a := Accepted(capacity, q + s, ops[1..]);
    assert Accepted(capacity, q, ops) == s + a && Left(capacity, q, ops) == Left(capacity, q + s, ops[1..]);
    assert Delivered(capacity, q, ops) == Delivered(capacity, q + s, ops[1..]);
    hide Accepted, Delivered, Left;
    Regroup(q, s, a);
  }

  lemma LostNothingInRead(capacity: nat, q: seq<char>, n: nat, ops: seq<Op>)
    requires |q| <= capacity && |ops| > 0 && ops[0] == Read(n)
    requires Conserved(capacity, After(capacity, q, ops[0]), ops[1..])
    ensures Conserved(capacity, q, ops)
  {
    var k := Min(n, |q|);
    var d, l := Delivered(capacity, q[k..], ops[1..]), Left(capacity, q[k..], ops[1..]);
    assert Delivered(capacity, q, ops) == q[..k] + d && Left(capacity, q, ops) == l;
    assert Accepted(capacity, q, ops) == Accepted(capacity, q[k..], ops[1..]);
    hide Accepted, Delivered, Left;
    assert q == q[..k] + q[k..];
    Regroup(q[..k], q[k..], Accepted(capacity, q[k..], ops[1..]));
    Regroup(q[..k], d, l);
  }
}

/** Reference counts in the object and pointers that keep them
    (nopebts/CommonLibs/Utils.h, nopebts/CommonLibs/Utils.cpp). */
module RefCounts {
  const SHORT_MAX: int := 32767

  class Target {
    /** A 16-bit signed count */
    var mRefCnt: int
    /** How often the object has been deleted */
    var deletions: nat
    /** Whether a pointer has ever held it */
    ghost var held: bool
    /** The live pointers that hold it */
    ghost var holders: set<Pointer>

    constructor ()
      ensures forall pointers: set<Pointer> :: (forall p <- pointers :: p.rcPointer != this) ==> Fine(pointers, 0)
      ensures deletions == 0 && !held
    {
      mRefCnt, deletions, held, holders := 0, 0, false, {};
    }

    /** holders names exactly the live pointers to the object, and the count is their number, up
        to ahead that a call under way has still to settle; an object that was held is deleted,
        and once, when the count is back at 0. */
    ghost predicate Fine(pointers: set<Pointer>, ahead: int)
      reads this, pointers
    {
      && 0 <= mRefCnt == |holders| + ahead <= SHORT_MAX
      && (mRefCnt > 0 ==> held)
      && deletions == (if held && mRefCnt == 0 then 1 else 0)
      && holders <= pointers
      && forall p <- pointers :: p in holders <==> p.rcPointer == this
    }

    /** ok is whether the assertion held. The count wraps at the top of its 16 bits. */
    method IncRefCnt(ghost pointers: set<Pointer>, ghost ahead: int) returns (ok: bool)
      requires deletions == 0
      modifies `mRefCnt, `held
      ensures ok <==> old(mRefCnt) >= 0
      ensures !ok ==> mRefCnt == old(mRefCnt)
      ensures ok ==> mRefCnt == if old(mRefCnt) == 32767 then -32768 else old(mRefCnt) + 1
      ensures old(mRefCnt) < 32767 && old(Fine(pointers, ahead)) ==> Fine(pointers, ahead + 1)
    {
      ok := mRefCnt >= 0;
      if ok {
        mRefCnt := if mRefCnt == SHORT_MAX then -SHORT_MAX - 1 else mRefCnt + 1;
        held := true;
      }
    }

    /** Deletes the object when no count is left; ok is whether the assertion held. */
    method DecRefCnt(ghost pointers: set<Pointer>, ghost ahead: int) returns (ok: bool, left: int)
      modifies `mRefCnt, `deletions
      ensures ok <==> old(mRefCnt) >= 0
      ensures !ok ==> mRefCnt == old(mRefCnt) && deletions == old(deletions)
      ensures ok ==> left == mRefCnt == old(mRefCnt) - 1
      ensures ok ==> deletions == old(deletions) + (if left <= 0 then 1 else 0)
      ensures old(mRefCnt) > 0 && old(Fine(pointers, ahead)) ==> Fine(pointers, ahead - 1)
    {
      ok, left := mRefCnt >= 0, 0;
      if ok {
        mRefCnt := mRefCnt - 1;
        left := mRefCnt;
        if left <= 0 {
          deletions := deletions + 1;
        }
      }
    }

    lemma CountInRange(pointers: set<Pointer>, ahead: int)
      requires Fine(pointers, ahead)
      ensures 0 <= mRefCnt <= SHORT_MAX && (ahead > 0 ==> mRefCnt > 0)
    {
    }

    ghost method Join(p: Pointer, pointers: set<Pointer>)
      requires p in pointers && p.rcPointer == this && Fine(pointers - {p}, 1)
      modifies `holders
      ensures Fine(pointers, 0)
    {
      assert |holders + {p}| == |holders| + 1;
      holders := holders + {p};
    }

    ghost method Leave(p: Pointer, pointers: set<Pointer>)
      requires p in holders && Fine(pointers, 0)
      modifies `holders
      ensures Fine(pointers - {p}, 1)
    {
      assert |holders - {p}| == |holders| - 1;
      holders := holders - {p};
    }
  }

  ghost predicate World(targets: set<Target>, pointers: set<Pointer>)
    reads targets, pointers
  {
    && (forall p <- pointers :: p.rcPointer != null ==> p.rcPointer in targets)
    && forall t <- targets :: t.Fine(pointers, 0)
  }

  lemma HolderCounts(targets: set<Target>, pointers: set<Pointer>, p: Pointer)
    requires World(targets, pointers) && p in pointers && p.rcPointer != null
    ensures var t := p.rcPointer;
      t in targets && 1 <= t.mRefCnt <= SHORT_MAX && t.held && t.deletions == 0 && p in t.holders
  {
    var t := p.rcPointer;
    assert t.Fine(pointers, 0);
    assert |t.holders - {p}| == |t.holders| - 1;
  }

  lemma AllWereFine(other: Target?, targets: set<Target>, pointers: set<Pointer>)
    requires World(targets, pointers) && (other != null ==> other in targets)
    ensures forall t <- targets :: t.Fine(pointers, 0)
    ensures forall p <- pointers :: p.rcPointer != null ==> p.rcPointer in targets
    ensures other != null ==> 0 <= other.mRefCnt <= SHORT_MAX && other.Fine(pointers, 0)
  {
  }

  /** A pointer to something else does not matter to t. */
  lemma Without(t: Target, pointers: set<Pointer>, p: Pointer, ahead: int)
    requires p in pointers && p.rcPointer != t
    ensures t.Fine(pointers, ahead) <==> t.Fine(pointers - {p}, ahead)
  {
  }

  class Pointer {
    var rcPointer: Target?

    constructor Null(ghost targets: set<Target>, ghost pointers: set<Pointer>)
      requires World(targets, pointers)
      ensures rcPointer == null && World(targets, pointers + {this})
    {
      rcPointer := null;
      new;
      assert forall t <- targets :: t.Fine(pointers, 0);
    }

    /** From an object, or from another pointer's object: the counts stay right exactly when the
        count had room. */
    constructor To(other: Target?, ghost targets: set<Target>, ghost pointers: set<Pointer>)
      requires World(targets, pointers)
      requires other != null ==> other in targets && other.deletions == 0
      modifies targets`mRefCnt, targets`held, targets`holders
      ensures rcPointer == other
      ensures World(targets, pointers + {this}) <==> other == null || old(other.mRefCnt) < 32767
      ensures other != null ==>
        other.mRefCnt == if old(other.mRefCnt) == 32767 then -32768 else old(other.mRefCnt) + 1
    {
      rcPointer := other;
      new;
      ghost var all := pointers + {this};
      assert all - {this} == pointers;
      AllWereFine(other, targets, pointers);
      hide Target.Fine, World;
      var ok := RcInc(pointers, 0);
      if other != null {
        if other.mRefCnt < 0 {
          NegativeIsWrong(other, targets, all);
          return;
        }
        other.Join(this, all);
      }
      AllAreFine(targets, all);
    }

    method RcInc(ghost pointers: set<Pointer>, ghost ahead: int) returns (ok: bool)
      requires rcPointer != null ==> rcPointer.deletions == 0
      modifies (if rcPointer == null then {} else {rcPointer})`mRefCnt,
        (if rcPointer == null then {} else {rcPointer})`held
      ensures ok <==> rcPointer == null || old(rcPointer.mRefCnt) >= 0
      ensures rcPointer != null && !ok ==> rcPointer.mRefCnt == old(rcPointer.mRefCnt)
      ensures rcPointer != null && ok ==>
        rcPointer.mRefCnt == if old(rcPointer.mRefCnt) == 32767 then -32768 else old(rcPointer.mRefCnt) + 1
      ensures rcPointer != null && old(rcPointer.mRefCnt) < 32767 && old(rcPointer.Fine(pointers, ahead)) ==>
        rcPointer.Fine(pointers, ahead + 1)
    {
      ok := true;
      if rcPointer != null {
        ok := rcPointer.IncRefCnt(pointers, ahead);
      }
    }

    /** Gives one count back, and the pointer up when that was the last; ahead is 1 when the
        object's count is one ahead, and this pointer then stays a holder. */
    method RcDec(ghost pointers: set<Pointer>, ghost ahead: int) returns (ok: bool)
      requires this in pointers && 0 <= ahead <= 1
      requires rcPointer != null ==> rcPointer.mRefCnt < 0 || rcPointer.Fine(pointers, ahead)
      modifies `rcPointer
      modifies (if rcPointer == null then {} else {rcPointer})`mRefCnt,
        (if rcPointer == null then {} else {rcPointer})`deletions
      modifies (if rcPointer == null then {} else {rcPointer})`holders
      ensures ok <==> old(rcPointer) == null || old(rcPointer.mRefCnt) >= 0
      ensures old(rcPointer) == null ==> rcPointer == null
      ensures ok && old(rcPointer) != null && ahead == 0 ==> old(rcPointer).Fine(pointers - {this}, 0)
      ensures ok && old(rcPointer) != null && ahead == 1 ==> rcPointer == old(rcPointer) && rcPointer.Fine(pointers, 0)
    {
      ok := true;
      if rcPointer != null {
        ghost var t := rcPointer;
        assert t.mRefCnt >= 0 ==> this in t.holders && t.mRefCnt == |t.holders - {this}| + 1 + ahead;
        hide Target.Fine;
        if ahead == 0 && t.mRefCnt >= 0 {
          t.Leave(this, pointers);
        }
        var left;
        ok, left := rcPointer.DecRefCnt(if ahead == 0 then pointers - {this} else pointers, 1);
        if ok && left <= 0 {
          rcPointer := null;
        }
      }
    }

    lemma OthersAreFine(targets: set<Target>, pointers: set<Pointer>)
      requires World(targets, pointers) && this in pointers
      ensures forall u <- targets :: u != rcPointer ==> u.Fine(pointers - {this}, 0)
      ensures rcPointer != null ==> rcPointer.Fine(pointers, 0)
      ensures forall p <- pointers - {this} :: p.rcPointer != null ==> p.rcPointer in targets
    {
      hide Target.Fine;
      forall u <- targets | u != rcPointer
        ensures u.Fine(pointers - {this}, 0)
      {
        Without(u, pointers, this, 0);
      }
    }

    lemma AllAreFine(targets: set<Target>, pointers: set<Pointer>)
      requires this in pointers && forall u <- targets :: u != rcPointer ==> u.Fine(pointers - {this}, 0)
      requires rcPointer != null ==> rcPointer in targets && rcPointer.Fine(pointers, 0)
      requires forall p <- pointers - {this} :: p.rcPointer != null ==> p.rcPointer in targets
      ensures World(targets, pointers)
    {
      hide Target.Fine;
      forall u <- targets | u != rcPointer
        ensures u.Fine(pointers, 0)
      {
        Without(u, pointers, this, 0);
      }
    }

    /** The destructor: the pointer leaves the live ones. It fails when its object's count has
        wrapped, and only then. */
    method Destroy(ghost targets: set<Target>, ghost pointers: set<Pointer>) returns (ok: bool)
      requires this in pointers
      requires World(targets, pointers) || Wrapped(rcPointer, targets)
      modifies `rcPointer, targets`mRefCnt, targets`deletions, targets`holders
      ensures ok <==> old(World(targets, pointers))
      ensures ok ==> rcPointer == null && World(targets, pointers - {this}) && World(targets, pointers)
    {
      if Wrapped(rcPointer, targets) {
        NegativeIsWrong(rcPointer, targets, pointers);
      }
      hide Target.Fine;
      ghost var fine := World(targets, pointers);
      if fine {
        OthersAreFine(targets, pointers);
      }
      ok := RcDec(pointers, 0);
      if !ok {
        return;
      }
      rcPointer := null;
      AllAreFine(targets, pointers);
    }

    /** free is the destructor's work on a pointer that lives on. */
    method Free(ghost targets: set<Target>, ghost pointers: set<Pointer>)
      requires World(targets, pointers) && this in pointers
      modifies `rcPointer, targets`mRefCnt, targets`deletions, targets`holders
      ensures rcPointer == null && World(targets, pointers)
    {
      var ok := Destroy(targets, pointers);
    }

    /** The body of the assignment, other being the argument. Without room for one more it fails
        or leaves the object with a wrapped count. */
    method Take(other: Pointer, ghost targets: set<Target>, ghost pointers: set<Pointer>) returns (ok: bool)
      requires this in pointers && other in pointers && other != this
      requires World(targets, pointers) || Wrapped(other.rcPointer, targets)
      requires other.rcPointer != null ==> other.rcPointer in targets && other.rcPointer.deletions == 0
      modifies `rcPointer, targets`mRefCnt, targets`deletions, targets`held, targets`holders
      ensures old(World(targets, pointers) && HasRoom(other.rcPointer, 1)) ==>
        ok && World(targets, pointers) && rcPointer == other.rcPointer
      ensures !old(World(targets, pointers) && HasRoom(other.rcPointer, 1)) ==> !ok || Wrapped(other.rcPointer, targets)
    {
      hide Target.Fine, World;
      ghost var s, t, rest := rcPointer, other.rcPointer, pointers - {this};
      ghost var fits := World(targets, pointers) && HasRoom(t, 1);
      if World(targets, pointers) {
        OthersAreFine(targets, pointers);
        if t != null {
          HolderCounts(targets, pointers, other);
        }
        if s != null {
          HolderCounts(targets, pointers, this);
        }
      }
      ok := other.RcInc(if s == t then pointers else rest, 0);
      if !ok {
        return;
      }
      ok := RcDec(pointers, if s == t then 1 else 0);
      if !ok {
        return;
      }
      rcPointer := other.rcPointer;
      if fits {
        Settle(s, targets, pointers);
      }
    }

    /** Ghost work: the pointer, which held s before, joins the holders of its object. */
    ghost method Settle(s: Target?, targets: set<Target>, pointers: set<Pointer>)
      requires this in pointers && forall u <- targets :: u != rcPointer ==> u.Fine(pointers - {this}, 0)
      requires rcPointer != null ==> rcPointer in targets
      requires rcPointer != null ==>
        if s == rcPointer then s.Fine(pointers, 0) else rcPointer.Fine(pointers - {this}, 1)
      requires forall p <- pointers - {this} :: p.rcPointer != null ==> p.rcPointer in targets
      modifies targets`holders
      ensures World(targets, pointers)
    {
      hide Target.Fine;
      if rcPointer != null && s != rcPointer {
        rcPointer.Join(this, pointers);
      }
      AllAreFine(targets, pointers);
    }

    /** Assignment from another pointer, itself included. The argument is passed by value, so a
        third pointer holds the object while the call runs: the assertions hold, and the counts
        stay right, exactly when there was room for two more. */
    method Assign(source: Pointer, ghost targets: set<Target>, ghost pointers: set<Pointer>) returns (ok: bool)
      requires World(targets, pointers) && this in pointers && source in pointers
      modifies `rcPointer, targets`mRefCnt, targets`deletions, targets`held, targets`holders
      ensures ok <==> old(source.rcPointer) == null || old(source.rcPointer.mRefCnt) <= 32765
      ensures ok ==> World(targets, pointers) && rcPointer == old(source.rcPointer)
    {
      hide Target.Fine;
      if source.rcPointer != null {
        HolderCounts(targets, pointers, source);
      }
      var other := new Pointer.To(source.rcPointer, targets, pointers);
      ghost var all := pointers + {other};
      ok := Take(other, targets, all);
      if !ok {
        return;
      }
      if Wrapped(other.rcPointer, targets) {
        NegativeIsWrong(other.rcPointer, targets, all);
      }
      ok := other.Destroy(targets, all);
      assert all - {other} == pointers;
    }

    /** Assignment of an object, or of none: the count of the new one goes up before that of the
        old one goes down. The assertions miss a wrapped count unless the pointer held the object
        already. */
    method AssignTarget(other: Target?, ghost targets: set<Target>, ghost pointers: set<Pointer>) returns (ok: bool)
      requires World(targets, pointers) && this in pointers
      requires other != null ==> other in targets && other.deletions == 0
      modifies `rcPointer, targets`mRefCnt, targets`deletions, targets`held, targets`holders
      ensures ok <==> other == null || old(other.mRefCnt) < 32767 || other != old(rcPointer)
      ensures ok ==> rcPointer == other && (World(targets, pointers) <==> other == null || old(other.mRefCnt) < 32767)
    {
      hide Target.Fine;
      var s := rcPointer;
      ghost var rest, fits := pointers - {this}, HasRoom(other, 1);
      Point(other, targets, pointers);
      hide World;
      ok := true;
      if s != null {
        var left;
        ok, left := s.DecRefCnt(if s == other then pointers else rest, 1);
      }
      if fits {
        Settle(s, targets, pointers);
      } else {
        NegativeIsWrong(other, targets, pointers);
      }
    }

    /** The first half: the pointer holds other, whose count is up, and the old object's count is
        still to go down. */
    method Point(other: Target?, ghost targets: set<Target>, ghost pointers: set<Pointer>)
      requires World(targets, pointers) && this in pointers
      requires other != null ==> other in targets && other.deletions == 0
      modifies `rcPointer, targets`mRefCnt, targets`held, targets`holders
      ensures rcPointer == other
      ensures forall p <- pointers - {this} :: p.rcPointer != null ==> p.rcPointer in targets
      ensures forall u <- targets :: u != old(rcPointer) && u != other ==> u.Fine(pointers - {this}, 0)
      ensures var s := old(rcPointer); s != null && s != other ==>
        s in targets && s.mRefCnt > 0 && s.Fine(pointers - {this}, 1)
      ensures other != null && old(HasRoom(other, 1)) ==>
        other.mRefCnt > 0 && other.Fine(if other == old(rcPointer) then pointers else pointers - {this}, 1)
      ensures !old(HasRoom(other, 1)) ==> other.mRefCnt < 0
    {
      ghost var s, rest := rcPointer, pointers - {this};
      Starts(s, other, targets, pointers);
      hide Target.Fine;
      OthersAreFine(targets, pointers);
      hide World;
      if s != null && s != other {
        s.Leave(this, pointers);
      }
      rcPointer := other;
      var ok := RcInc(if s == other then pointers else rest, 0);
    }

    lemma Starts(s: Target?, other: Target?, targets: set<Target>, pointers: set<Pointer>)
      requires World(targets, pointers) && this in pointers && s == rcPointer && (other != null ==> other in targets)
      ensures s != null ==> s.mRefCnt >= 1 && s.deletions == 0 && this in s.holders && s in targets
      ensures other != null ==> 0 <= other.mRefCnt <= SHORT_MAX && other.Fine(pointers, 0)
    {
      if s != null {
        HolderCounts(targets, pointers, this);
      }
    }
  }

  /** The count of the object, if there is one, can go up by n. */
  ghost predicate HasRoom(t: Target?, n: nat)
    reads t
  {
    t == null || t.mRefCnt + n <= SHORT_MAX
  }

  /** An object whose count went over the top */
  ghost predicate Wrapped(t: Target?, targets: set<Target>)
    reads t
  {
    t != null && t in targets && t.mRefCnt < 0
  }

  lemma NegativeIsWrong(t: Target, targets: set<Target>, pointers: set<Pointer>)
    requires t in targets && t.mRefCnt < 0
    ensures !World(targets, pointers) && forall ps: set<Pointer>, d :: !t.Fine(ps, d)
  {
    if World(targets, pointers) {
      t.CountInRange(pointers, 0);
    }
  }

  // ---------------------------------------------------------------- where the counts fail

  /** An object with n pointers to it */
  method Hold(n: nat) returns (t: Target, ghost pointers: set<Pointer>, last: Pointer?)
    requires n <= 32767
    ensures fresh(t) && World({t}, pointers) && t.mRefCnt == |pointers| == n && t.deletions == 0
    ensures n > 0 ==> last != null && fresh(last) && last in pointers && last.rcPointer == t
  {
    t := new Target();
    pointers, last := {}, null;
    for i := 0 to n
      invariant fresh(t) && World({t}, pointers) && t.mRefCnt == |pointers| == i && t.deletions == 0
      invariant i > 0 ==> last != null && fresh(last) && last in pointers && last.rcPointer == t
    {
      last := new Pointer.To(t, {t}, pointers);
      pointers := pointers + {last};
    }
  }

  /** The 32768th pointer wraps the count. */
  method OneTooMany() returns (t: Target, ghost pointers: set<Pointer>)
    ensures |pointers| == 32768 && t.mRefCnt == -32768 && !World({t}, pointers)
  {
    var last;
    t, pointers, last := Hold(SHORT_MAX);
    last := new Pointer.To(t, {t}, pointers);
    pointers := pointers + {last};
  }

  /** Assigning one of n pointers to an object to itself runs into an assertion exactly when n is
      32766 or more. */
  method SelfAssignment(n: nat) returns (ok: bool)
    requires 1 <= n <= 32767
    ensures ok <==> n < 32766
  {
    var t, last;
    ghost var pointers;
    t, pointers, last := Hold(n);
    ok := last.Assign(last, {t}, pointers);
  }
}

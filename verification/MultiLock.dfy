/** The acquisition protocol of ScopedLockMultiple (nopebts/CommonLibs/Threads.cpp,
    nopebts/CommonLibs/Threads.h) as a state machine: any number of threads, each acquiring
    three recursive mutexes, interleaved one mutex operation at a time. */
module MultiLock {
  import opened Options

  type Mutex = nat
  type Flags = f: seq<bool> | |f| == 3 witness [false, false, false]
  type Mutexes = m: seq<Mutex> | |m| == 3 witness [0, 0, 0]

  /** Where a thread is. Round k of the acquisition waits for mutex k and then tries the other
      two; if one is refused, it gives up what it has taken. */
  datatype Pc =
    | Wait(k: nat)
    | TryFirst(k: nat)
    | TrySecond(k: nat)
    | UndoFirst(k: nat)
    | UndoLead(k: nat)
    | Held
    | Restore(i: nat)
    | Leave(i: nat)
    | Done

  /** state is what the thread believes it holds; own is what it held on entry. */
  datatype Thread = Thread(pc: Pc, own: Flags, mutexes: Mutexes, state: Flags)

  datatype Lock = Lock(holder: nat, count: nat)

  datatype System = System(threads: seq<Thread>, locks: map<Mutex, Lock>)

  // ---------------------------------------------------------------- recursive mutexes

  predicate CanTake(locks: map<Mutex, Lock>, t: nat, m: Mutex) {
    m !in locks || locks[m].holder == t
  }

  function Take(locks: map<Mutex, Lock>, t: nat, m: Mutex): map<Mutex, Lock> {
    if m in locks then locks[m := Lock(t, locks[m].count + 1)] else locks[m := Lock(t, 1)]
  }

  function Drop(locks: map<Mutex, Lock>, m: Mutex): map<Mutex, Lock> {
    if m in locks && locks[m].count > 1 then locks[m := Lock(locks[m].holder, locks[m].count - 1)] else locks - {m}
  }

  // ---------------------------------------------------------------- steps

  function First(k: nat): nat {
    if k == 0 then 1 else 0
  }

  function Second(k: nat): nat {
    if k == 2 then 1 else 2
  }

  /** Round k tries the other two of the three in rising order. */
  lemma OtherTwo(k: nat)
    requires k < 3
    ensures First(k) < Second(k) < 3 && First(k) != k && Second(k) != k
  {
  }

  function Update(s: System, t: nat, thread: Thread, locks: map<Mutex, Lock>): System
    requires t < |s.threads|
  {
    System(s.threads[t := thread], locks)
  }

  /** _lock: waits unless the mutex is already held */
  function Acquire(s: System, t: nat, which: nat, next: Pc): Option<System>
    requires t < |s.threads| && which < 3
  {
    var th := s.threads[t];
    if th.state[which] then Some(Update(s, t, th.(pc := next), s.locks))
    else if CanTake(s.locks, t, th.mutexes[which])
    then Some(Update(s, t, th.(pc := next, state := th.state[which := true]), Take(s.locks, t, th.mutexes[which])))
    else None
  }

  /** _trylock */
  function Attempt(s: System, t: nat, which: nat, taken: Pc, refused: Pc): System
    requires t < |s.threads| && which < 3
  {
    var got := Acquire(s, t, which, taken);
    if got.Some? then got.value else Update(s, t, s.threads[t].(pc := refused), s.locks)
  }

  /** _unlock */
  function Surrender(s: System, t: nat, which: nat, next: Pc): System
    requires t < |s.threads| && which < 3
  {
    var th := s.threads[t];
    if th.state[which]
    then Update(s, t, th.(pc := next, state := th.state[which := false]), Drop(s.locks, th.mutexes[which]))
    else Update(s, t, th.(pc := next), s.locks)
  }

  /** One step of thread t: None when it must wait or has nothing left to do */
  function Step(s: System, t: nat): Option<System>
    requires t < |s.threads|
  {
    var th := s.threads[t];
    match th.pc
    case Wait(k) => if k < 3 then Acquire(s, t, k, TryFirst(k)) else None
    case TryFirst(k) => Some(Attempt(s, t, First(k), TrySecond(k), UndoFirst(k)))
    case TrySecond(k) => Some(Attempt(s, t, Second(k), Held, UndoFirst(k)))
    case UndoFirst(k) => Some(Surrender(s, t, First(k), UndoLead(k)))
    case UndoLead(k) => if k < 3 then Some(Surrender(s, t, k, Wait(if k == 2 then 0 else k + 1))) else None
    // The destructor leaves every mutex the way the constructor found it.
    case Held => Some(Update(s, t, th.(pc := Restore(0)), s.locks))
    case Restore(i) =>
      if i >= 3 then Some(Update(s, t, th.(pc := Leave(0)), s.locks))
      else if !th.own[i] && th.state[i] then Some(Surrender(s, t, i, Restore(i + 1)))
      else if th.own[i] && !th.state[i] then Acquire(s, t, i, Restore(i + 1))
      else Some(Update(s, t, th.(pc := Restore(i + 1)), s.locks))
    // The caller gives up the mutexes it held before the call.
    case Leave(i) =>
      if i >= 3 then Some(Update(s, t, th.(pc := Done), s.locks))
      else Some(Surrender(s, t, i, Leave(i + 1)))
    case Done => None
  }

  function Run(s: System, schedule: seq<nat>): Option<System> {
    if |schedule| == 0 then Some(s)
    else
      var before := Run(s, schedule[..|schedule| - 1]);
      var t := schedule[|schedule| - 1];
      if before.None? || t >= |before.value.threads| then None else Step(before.value, t)
  }

  // ---------------------------------------------------------------- invariants

  ghost function One(b: bool): nat {
    if b then 1 else 0
  }

  /** How often thread t holds mutex m, by its own account */
  ghost function Holds(th: Thread, m: Mutex): nat {
    One(th.state[0] && th.mutexes[0] == m) + One(th.state[1] && th.mutexes[1] == m) +
    One(th.state[2] && th.mutexes[2] == m)
  }

  ghost predicate Agrees(s: System, t: nat, m: Mutex)
    requires t < |s.threads|
  {
    Holds(s.threads[t], m) == if m in s.locks && s.locks[m].holder == t then s.locks[m].count else 0
  }

  /** The mutexes and the threads' own accounts agree. */
  ghost predicate Consistent(s: System) {
    && (forall t, m :: 0 <= t < |s.threads| ==> Agrees(s, t, m))
    && (forall m :: m in s.locks ==> s.locks[m].holder < |s.threads| && s.locks[m].count > 0)
  }

  /** The owner flags for which the protocol is safe: 0, 1, 3 and 7 */
  ghost predicate Safe(own: Flags) {
    (own[2] ==> own[1]) && (own[1] ==> own[0])
  }

  ghost predicate HoldsNothing(th: Thread) {
    !th.state[0] && !th.state[1] && !th.state[2]
  }

  ghost predicate ThreadOk(th: Thread) {
    match th.pc
    case Wait(k) => k < 3 && (HoldsNothing(th) || (k == 0 && th.state == th.own))
    case TryFirst(k) => k < 3 && th.state[k] && (th.state[Second(k)] ==> th.state[First(k)])
    case TrySecond(k) => k < 3 && th.state[k] && th.state[First(k)]
    case UndoFirst(k) => k < 3 && !th.state[Second(k)]
    case UndoLead(k) => k < 3 && !th.state[Second(k)] && !th.state[First(k)]
    case Held => th.state == [true, true, true]
    case Restore(i) => i <= 3 && forall j :: 0 <= j < 3 ==> th.state[j] == (j >= i || th.own[j])
    case Leave(i) => i <= 3 && forall j :: 0 <= j < 3 ==> th.state[j] == (j >= i && th.own[j])
    case Done => HoldsNothing(th)
  }

  /** What holds of a thread whatever its owner flags */
  ghost predicate Tracked(th: Thread) {
    match th.pc
    case Wait(k) => k < 3
    case TryFirst(k) => k < 3 && th.state[k]
    case TrySecond(k) => k < 3 && th.state[k] && th.state[First(k)]
    case UndoFirst(k) => k < 3
    case UndoLead(k) => k < 3
    case Held => th.state == [true, true, true]
    case Restore(i) => i <= 3 && forall j :: 0 <= j < 3 ==> th.state[j] == (j >= i || th.own[j])
    case Leave(i) => i <= 3 && forall j :: 0 <= j < 3 ==> th.state[j] == (j >= i && th.own[j])
    case Done => HoldsNothing(th)
  }

  ghost predicate Accounts(s: System) {
    Consistent(s) && forall t :: 0 <= t < |s.threads| ==> Tracked(s.threads[t])
  }

  ghost predicate Invariant(s: System) {
    && Consistent(s)
    && forall t :: 0 <= t < |s.threads| ==> Safe(s.threads[t].own) && ThreadOk(s.threads[t])
  }

  /** Every thread is about to construct its lock and holds exactly what its flags say. */
  ghost predicate Initial(s: System) {
    && Consistent(s)
    && forall t :: 0 <= t < |s.threads| ==> s.threads[t].pc == Wait(0) && s.threads[t].state == s.threads[t].own
  }

  // ---------------------------------------------------------------- preservation

  lemma TakeAgrees(s: System, t: nat, which: nat, next: Pc)
    requires t < |s.threads| && which < 3 && Consistent(s)
    requires !s.threads[t].state[which] && CanTake(s.locks, t, s.threads[t].mutexes[which])
    ensures Consistent(Acquire(s, t, which, next).value)
  {
    var s' := Acquire(s, t, which, next).value;
    forall u, m | 0 <= u < |s.threads|
      ensures Agrees(s', u, m)
    {
      assert Agrees(s, u, m);
    }
  }

  lemma DropAgrees(s: System, t: nat, which: nat, next: Pc)
    requires t < |s.threads| && which < 3 && Consistent(s)
    requires s.threads[t].state[which]
    ensures Consistent(Surrender(s, t, which, next))
  {
    var s' := Surrender(s, t, which, next);
    assert Agrees(s, t, s.threads[t].mutexes[which]);
    forall u, m | 0 <= u < |s.threads|
      ensures Agrees(s', u, m)
    {
      assert Agrees(s, u, m);
    }
  }

  lemma MoveAgrees(s: System, t: nat, next: Pc)
    requires t < |s.threads| && Consistent(s)
    ensures Consistent(Update(s, t, s.threads[t].(pc := next), s.locks))
  {
    var s' := Update(s, t, s.threads[t].(pc := next), s.locks);
    forall u, m | 0 <= u < |s.threads|
      ensures Agrees(s', u, m)
    {
      assert Agrees(s, u, m);
    }
  }

  lemma StepKeepsConsistent(s: System, t: nat)
    requires t < |s.threads| && Consistent(s) && Tracked(s.threads[t]) && Step(s, t).Some?
    ensures Consistent(Step(s, t).value)
  {
    hide Consistent;
    var th := s.threads[t];
    match th.pc
    case Wait(k) =>
      AcquireAgrees(s, t, k, TryFirst(k));
    case TryFirst(k) =>
      AttemptAgrees(s, t, First(k), TrySecond(k), UndoFirst(k));
    case TrySecond(k) =>
      AttemptAgrees(s, t, Second(k), Held, UndoFirst(k));
    case UndoFirst(k) =>
      SurrenderAgrees(s, t, First(k), UndoLead(k));
    case UndoLead(k) =>
      SurrenderAgrees(s, t, k, Wait(if k == 2 then 0 else k + 1));
    case Held =>
      MoveAgrees(s, t, Restore(0));
    case Restore(i) =>
      MoveAgrees(s, t, if i >= 3 then Leave(0) else Restore(i + 1));
      if i < 3 {
        SurrenderAgrees(s, t, i, Restore(i + 1));
        AcquireAgrees(s, t, i, Restore(i + 1));
      }
    case Leave(i) =>
      MoveAgrees(s, t, Done);
      if i < 3 {
        SurrenderAgrees(s, t, i, Leave(i + 1));
      }
    case Done =>
  }

  lemma AcquireAgrees(s: System, t: nat, which: nat, next: Pc)
    requires t < |s.threads| && which < 3 && Consistent(s)
    ensures Acquire(s, t, which, next).Some? ==> Consistent(Acquire(s, t, which, next).value)
  {
    hide Consistent;
    if s.threads[t].state[which] {
      MoveAgrees(s, t, next);
    } else if CanTake(s.locks, t, s.threads[t].mutexes[which]) {
      TakeAgrees(s, t, which, next);
    }
  }

  lemma AttemptAgrees(s: System, t: nat, which: nat, taken: Pc, refused: Pc)
    requires t < |s.threads| && which < 3 && Consistent(s)
    ensures Consistent(Attempt(s, t, which, taken, refused))
  {
    hide Consistent;
    AcquireAgrees(s, t, which, taken);
    MoveAgrees(s, t, refused);
  }

  lemma SurrenderAgrees(s: System, t: nat, which: nat, next: Pc)
    requires t < |s.threads| && which < 3 && Consistent(s)
    ensures Consistent(Surrender(s, t, which, next))
  {
    hide Consistent;
    if s.threads[t].state[which] {
      DropAgrees(s, t, which, next);
    } else {
      MoveAgrees(s, t, next);
    }
  }

  /** A step changes no other thread and no thread's mutexes or flags. */
  lemma StepIsLocal(s: System, t: nat)
    requires t < |s.threads| && Step(s, t).Some?
    ensures var s' := Step(s, t).value;
      && |s'.threads| == |s.threads|
      && (forall u :: 0 <= u < |s.threads| && u != t ==> s'.threads[u] == s.threads[u])
      && s'.threads[t].own == s.threads[t].own && s'.threads[t].mutexes == s.threads[t].mutexes
  {
  }

  /** What a step makes of the thread itself */
  lemma ThreadAfter(s: System, t: nat, which: nat, next: Pc, refused: Pc)
    requires t < |s.threads| && which < 3
    ensures var th := s.threads[t];
      && (Acquire(s, t, which, next).Some? ==>
            Acquire(s, t, which, next).value.threads[t] == th.(pc := next, state := th.state[which := true]))
      && (var a := Attempt(s, t, which, next, refused).threads[t];
          a == th.(pc := next, state := th.state[which := true]) || (a == th.(pc := refused) && !th.state[which]))
      && Surrender(s, t, which, next).threads[t] == th.(pc := next, state := th.state[which := false])
  {
    var th := s.threads[t];
    assert th.state[which] ==> th.state[which := true] == th.state;
    assert !th.state[which] ==> th.state[which := false] == th.state;
  }

  lemma WaitKeepsThreadOk(s: System, t: nat, k: nat)
    requires t < |s.threads| && s.threads[t].pc == Wait(k) && Step(s, t).Some?
    requires Safe(s.threads[t].own) && ThreadOk(s.threads[t])
    ensures ThreadOk(Step(s, t).value.threads[t])
  {
    assert Step(s, t) == Acquire(s, t, k, TryFirst(k));
    ThreadAfter(s, t, k, TryFirst(k), Done);
    hide Acquire, Attempt, Surrender, Step;
  }

  lemma StepKeepsThreadOk(s: System, t: nat)
    requires t < |s.threads| && Step(s, t).Some?
    requires Safe(s.threads[t].own) && ThreadOk(s.threads[t])
    ensures ThreadOk(Step(s, t).value.threads[t])
  {
    hide Acquire, Attempt, Surrender, Safe;
    match s.threads[t].pc
    case Wait(k) => WaitKeepsThreadOk(s, t, k);
    case TryFirst(k) => ThreadAfter(s, t, First(k), TrySecond(k), UndoFirst(k));
    case TrySecond(k) => ThreadAfter(s, t, Second(k), Held, UndoFirst(k));
    case UndoFirst(k) => ThreadAfter(s, t, First(k), UndoLead(k), Done);
    case UndoLead(k) => ThreadAfter(s, t, k, Wait(if k == 2 then 0 else k + 1), Done);
    case Held =>
    case Restore(i) => if i < 3 { ThreadAfter(s, t, i, Restore(i + 1), Done); }
    case Leave(i) => if i < 3 { ThreadAfter(s, t, i, Leave(i + 1), Done); }
    case Done =>
  }

  lemma OkIsTracked(th: Thread)
    requires ThreadOk(th)
    ensures Tracked(th)
  {
  }

  lemma StepKeepsTracked(s: System, t: nat)
    requires t < |s.threads| && Step(s, t).Some? && Tracked(s.threads[t])
    ensures Tracked(Step(s, t).value.threads[t])
  {
    hide Acquire, Attempt, Surrender;
    match s.threads[t].pc
    case Wait(k) => ThreadAfter(s, t, k, TryFirst(k), Done);
    case TryFirst(k) => ThreadAfter(s, t, First(k), TrySecond(k), UndoFirst(k));
    case TrySecond(k) => ThreadAfter(s, t, Second(k), Held, UndoFirst(k));
    case UndoFirst(k) => ThreadAfter(s, t, First(k), UndoLead(k), Done);
    case UndoLead(k) => ThreadAfter(s, t, k, Wait(if k == 2 then 0 else k + 1), Done);
    case Held =>
    case Restore(i) => if i < 3 { ThreadAfter(s, t, i, Restore(i + 1), Done); }
    case Leave(i) => if i < 3 { ThreadAfter(s, t, i, Leave(i + 1), Done); }
    case Done =>
  }

  lemma {:induction false} RunKeepsAccounts(s0: System, schedule: seq<nat>)
    requires Accounts(s0) && Run(s0, schedule).Some?
    ensures Accounts(Run(s0, schedule).value)
  {
    hide Step, Tracked, Consistent;
    if |schedule| > 0 {
      var n := |schedule| - 1;
      RunKeepsAccounts(s0, schedule[..n]);
      var s, t := Run(s0, schedule[..n]).value, schedule[n];
      StepKeepsConsistent(s, t);
      StepIsLocal(s, t);
      StepKeepsTracked(s, t);
    }
  }

  lemma StepKeepsInvariant(s: System, t: nat)
    requires t < |s.threads| && Invariant(s) && Step(s, t).Some?
    ensures Invariant(Step(s, t).value)
  {
    OkIsTracked(s.threads[t]);
    hide Consistent, ThreadOk, Safe;
    StepKeepsConsistent(s, t);
    StepIsLocal(s, t);
    StepKeepsThreadOk(s, t);
    hide Step;
  }

  lemma {:induction false} RunKeepsInvariant(s0: System, schedule: seq<nat>)
    requires Invariant(s0) && Run(s0, schedule).Some?
    ensures Invariant(Run(s0, schedule).value)
    ensures |Run(s0, schedule).value.threads| == |s0.threads|
  {
    hide Invariant, Step;
    if |schedule| > 0 {
      var n := |schedule| - 1;
      RunKeepsInvariant(s0, schedule[..n]);
      StepKeepsInvariant(Run(s0, schedule[..n]).value, schedule[n]);
      StepIsLocal(Run(s0, schedule[..n]).value, schedule[n]);
    }
  }

  lemma InitialIsInvariant(s: System)
    requires Initial(s) && forall t :: 0 <= t < |s.threads| ==> Safe(s.threads[t].own)
    ensures Invariant(s)
  {
    hide Consistent;
  }

  // ---------------------------------------------------------------- what the protocol guarantees

  /** A thread that has to wait for a mutex holds none of its own. */
  lemma WaitersHoldNothing(s: System, t: nat)
    requires t < |s.threads| && Invariant(s)
    requires Step(s, t).None? && s.threads[t].pc != Done
    ensures s.threads[t].pc.Wait? && HoldsNothing(s.threads[t])
    ensures var m := s.threads[t].mutexes[s.threads[t].pc.k];
      m in s.locks && s.locks[m].holder != t
  {
    hide Consistent;
    assert Safe(s.threads[t].own) && ThreadOk(s.threads[t]);
  }

  ghost predicate Deadlocked(s: System) {
    && (exists t :: 0 <= t < |s.threads| && s.threads[t].pc != Done)
    && forall t :: 0 <= t < |s.threads| ==> Step(s, t).None?
  }

  lemma HolderHolds(s: System, m: Mutex)
    requires Consistent(s) && m in s.locks
    ensures s.locks[m].holder < |s.threads| && !HoldsNothing(s.threads[s.locks[m].holder])
  {
    assert Agrees(s, s.locks[m].holder, m);
  }

  lemma InvariantExcludesDeadlock(s: System)
    requires Invariant(s)
    ensures !Deadlocked(s)
  {
    if Deadlocked(s) {
      hide Consistent, Step;
      var t :| 0 <= t < |s.threads| && s.threads[t].pc != Done;
      WaitersHoldNothing(s, t);
      var m := s.threads[t].mutexes[s.threads[t].pc.k];
      HolderHolds(s, m);
      var u := s.locks[m].holder;
      assert ThreadOk(s.threads[u]);
      if s.threads[u].pc != Done {
        WaitersHoldNothing(s, u);
      }
      assert false;
    }
  }

  /** Threads with any mixture of safe flags never reach a deadlock. */
  lemma SafeThreadsDoNotDeadlock(s0: System, schedule: seq<nat>)
    requires Initial(s0) && forall t :: 0 <= t < |s0.threads| ==> Safe(s0.threads[t].own)
    requires Run(s0, schedule).Some?
    ensures !Deadlocked(Run(s0, schedule).value)
  {
    InitialIsInvariant(s0);
    RunKeepsInvariant(s0, schedule);
    InvariantExcludesDeadlock(Run(s0, schedule).value);
  }

  /** Whatever the owner flags and the run: when the constructor has returned all three mutexes
      are held, by nobody else, and after the destructor the thread holds exactly what it held on
      entry. */
  lemma AcquiredAndRestored(s0: System, schedule: seq<nat>, t: nat, i: nat)
    requires Initial(s0) && Run(s0, schedule).Some? && i < 3
    ensures var s := Run(s0, schedule).value; t < |s.threads| ==>
      var th := s.threads[t]; var m := th.mutexes[i];
      && (th.pc == Held ==> th.state[i] && m in s.locks && s.locks[m].holder == t)
      && (th.pc == Leave(0) ==> th.state == th.own)
  {
    RunKeepsAccounts(s0, schedule);
    var s := Run(s0, schedule).value;
    if t < |s.threads| {
      assert Tracked(s.threads[t]);
      assert Agrees(s, t, s.threads[t].mutexes[i]);
    }
  }

  lemma {:induction false} RunConcat(s: System, a: seq<nat>, b: seq<nat>)
    requires Run(s, a).Some?
    ensures Run(s, a + b) == Run(Run(s, a).value, b)
  {
    hide Step;
    if |b| == 0 {
      assert a + b == a;
    } else {
      var n := |b| - 1;
      RunConcat(s, a, b[..n]);
      assert (a + b)[..|a| + n] == a + b[..n] && (a + b)[|a| + n] == b[n];
    }
  }

  lemma RunOnce(s: System, t: nat)
    requires t < |s.threads|
    ensures Run(s, [t]) == Step(s, t)
  {
    assert [t][..0] == [];
  }

  // ---------------------------------------------------------------- a refused round

  lemma Returned(locks: map<Mutex, Lock>, t: nat, m: Mutex)
    requires CanTake(locks, t, m) && (m in locks ==> locks[m].count > 0)
    ensures Drop(Take(locks, t, m), m) == locks
    ensures forall o :: o != m ==> (CanTake(Take(locks, t, m), t, o) <==> CanTake(locks, t, o))
  {
    assert m !in locks ==> Take(locks, t, m) - {m} == locks;
  }

  lemma UpdateTwice(s: System, t: nat, a: Thread, b: Thread, l: map<Mutex, Lock>, m: map<Mutex, Lock>)
    requires t < |s.threads|
    ensures Update(Update(s, t, a, l), t, b, m) == Update(s, t, b, m) && |Update(s, t, a, l).threads| == |s.threads|
    ensures Update(s, t, a, l).threads[t] == a && Update(s, t, a, l).locks == l
  {
  }

  lemma Taking(s: System, t: nat, th: Thread, k: nat)
    requires t < |s.threads| && th == s.threads[t] && k < 3
    requires th.pc == Wait(k) && !th.state[k] && CanTake(s.locks, t, th.mutexes[k])
    ensures Step(s, t) ==
      Some(Update(s, t, th.(pc := TryFirst(k), state := th.state[k := true]), Take(s.locks, t, th.mutexes[k])))
  {
  }

  lemma TakingFirst(s: System, t: nat, th: Thread, k: nat)
    requires t < |s.threads| && th == s.threads[t] && th.pc == TryFirst(k)
    requires !th.state[First(k)] && CanTake(s.locks, t, th.mutexes[First(k)])
    ensures Step(s, t) == Some(Update(s, t, th.(pc := TrySecond(k), state := th.state[First(k) := true]),
                                    Take(s.locks, t, th.mutexes[First(k)])))
  {
  }

  lemma Refusing(s: System, t: nat, th: Thread, k: nat)
    requires t < |s.threads| && th == s.threads[t]
    requires
      || (th.pc == TryFirst(k) && !th.state[First(k)] && !CanTake(s.locks, t, th.mutexes[First(k)]))
      || (th.pc == TrySecond(k) && !th.state[Second(k)] && !CanTake(s.locks, t, th.mutexes[Second(k)]))
    ensures Step(s, t) == Some(Update(s, t, th.(pc := UndoFirst(k)), s.locks))
  {
  }

  lemma UndoingFirst(s: System, t: nat, th: Thread, k: nat)
    requires t < |s.threads| && th == s.threads[t] && th.pc == UndoFirst(k)
    ensures var f, m := First(k), th.mutexes[First(k)];
      Step(s, t) == Some(
        if th.state[f] then Update(s, t, th.(pc := UndoLead(k), state := th.state[f := false]), Drop(s.locks, m))
        else Update(s, t, th.(pc := UndoLead(k)), s.locks))
  {
  }

  lemma UndoingLead(s: System, t: nat, th: Thread, k: nat)
    requires t < |s.threads| && th == s.threads[t] && k < 3 && th.pc == UndoLead(k) && th.state[k]
    ensures Step(s, t) == Some(Update(s, t, th.(pc := Wait((k + 1) % 3), state := th.state[k := false]),
                                    Drop(s.locks, th.mutexes[k])))
  {
  }

  lemma FlagsBack(st: Flags, i: nat)
    requires i < 3 && !st[i]
    ensures st[i := true][i := false] == st
  {
  }

  /** The first of the other two is refused. */
  lemma RefusedFirst(s: System, t: nat, k: nat)
    requires t < |s.threads| && k < 3 && s.threads[t].pc == Wait(k) && HoldsNothing(s.threads[t])
    requires forall m :: m in s.locks ==> s.locks[m].count > 0
    requires var ms := s.threads[t].mutexes; CanTake(s.locks, t, ms[k]) && !CanTake(s.locks, t, ms[First(k)])
    ensures Run(s, [t] + [t] + [t] + [t]) ==
      Some(Update(s, t, s.threads[t].(pc := Wait((k + 1) % 3)), s.locks))
  {
    var th := s.threads[t];
    var m, st: Flags := th.mutexes[k], th.state[k := true];
    Returned(s.locks, t, m);
    hide Take, Drop, CanTake, Step, Run, Update;
    FlagsBack(th.state, k);
    var locks := Take(s.locks, t, m);
    var t1 := th.(pc := TryFirst(k), state := st);
    var t2, t3, t4 := t1.(pc := UndoFirst(k)), t1.(pc := UndoLead(k)), th.(pc := Wait((k + 1) % 3));
    var s1, s2 := Update(s, t, t1, locks), Update(s, t, t2, locks);
    var s3, s4 := Update(s, t, t3, locks), Update(s, t, t4, s.locks);
    Taking(s, t, th, k);
    UpdateTwice(s, t, t1, t2, locks, locks);
    Refusing(s1, t, t1, k);
    UpdateTwice(s, t, t2, t3, locks, locks);
    UndoingFirst(s2, t, t2, k);
    UpdateTwice(s, t, t3, t4, locks, s.locks);
    UndoingLead(s3, t, t3, k);
    FourSteps(s, s1, s2, s3, s4, t);
  }

  lemma FourSteps(s: System, s1: System, s2: System, s3: System, s4: System, t: nat)
    requires t < |s.threads| == |s1.threads| == |s2.threads| == |s3.threads|
    requires Step(s, t) == Some(s1) && Step(s1, t) == Some(s2) && Step(s2, t) == Some(s3) && Step(s3, t) == Some(s4)
    ensures Run(s, [t] + [t] + [t] + [t]) == Some(s4)
  {
    hide Step, Run;
    RunOnce(s, t);
    RunOnce(s1, t);
    RunOnce(s2, t);
    RunOnce(s3, t);
    RunConcat(s, [t], [t]);
    RunConcat(s, [t] + [t], [t]);
    RunConcat(s, [t] + [t] + [t], [t]);
  }

  /** The first of the other two is taken and the second refused. */
  lemma RefusedSecond(s: System, t: nat, k: nat)
    requires t < |s.threads| && k < 3 && s.threads[t].pc == Wait(k) && HoldsNothing(s.threads[t])
    requires forall m :: m in s.locks ==> s.locks[m].count > 0
    requires var ms := s.threads[t].mutexes;
      CanTake(s.locks, t, ms[k]) && CanTake(s.locks, t, ms[First(k)]) && !CanTake(s.locks, t, ms[Second(k)])
    ensures Run(s, [t] + [t] + [t] + [t] + [t]) ==
      Some(Update(s, t, s.threads[t].(pc := Wait((k + 1) % 3)), s.locks))
  {
    var th := s.threads[t];
    var m, o, st: Flags := th.mutexes[k], th.mutexes[First(k)], th.state[k := true];
    var both: Flags := st[First(k) := true];
    var one := Take(s.locks, t, m);
    var two := Take(one, t, o);
    assert m in one && one[m].count > 0 && forall l :: l in one ==> one[l].count > 0;
    Returned(s.locks, t, m);
    Returned(one, t, o);
    hide Take, Drop, CanTake, Step, Run, Update;
    FlagsBack(th.state, k);
    FlagsBack(st, First(k));
    var t1, t2 := th.(pc := TryFirst(k), state := st), th.(pc := TrySecond(k), state := both);
    var t3, t4, t5 := t2.(pc := UndoFirst(k)), t1.(pc := UndoLead(k)), th.(pc := Wait((k + 1) % 3));
    var s1, s2, s3 := Update(s, t, t1, one), Update(s, t, t2, two), Update(s, t, t3, two);
    var s4, s5 := Update(s, t, t4, one), Update(s, t, t5, s.locks);
    Taking(s, t, th, k);
    UpdateTwice(s, t, t1, t2, one, two);
    TakingFirst(s1, t, t1, k);
    UpdateTwice(s, t, t2, t3, two, two);
    Refusing(s2, t, t2, k);
    UpdateTwice(s, t, t3, t4, two, one);
    UndoingFirst(s3, t, t3, k);
    UpdateTwice(s, t, t4, t5, one, s.locks);
    UndoingLead(s4, t, t4, k);
    FourSteps(s, s1, s2, s3, s4, t);
    RunOnce(s4, t);
    RunConcat(s, [t] + [t] + [t] + [t], [t]);
  }

  /** When a thread that holds nothing takes the mutex it waits for and is then refused one of the
      others, its next steps give back all it took: the mutexes are as they were and it waits for
      the next of the three. */
  lemma RefusedRoundIsUndone(s: System, t: nat, k: nat, j: nat) returns (schedule: seq<nat>)
    requires t < |s.threads| && k < 3 && j < 3 && s.threads[t].pc == Wait(k) && HoldsNothing(s.threads[t])
    requires forall m :: m in s.locks ==> s.locks[m].count > 0
    requires var ms := s.threads[t].mutexes; CanTake(s.locks, t, ms[k]) && !CanTake(s.locks, t, ms[j])
    ensures 4 <= |schedule| <= 5 && forall i :: 0 <= i < |schedule| ==> schedule[i] == t
    ensures Run(s, schedule) == Some(System(s.threads[t := s.threads[t].(pc := Wait((k + 1) % 3))], s.locks))
  {
    hide Run;
    if CanTake(s.locks, t, s.threads[t].mutexes[First(k)]) {
      schedule := [t] + [t] + [t] + [t] + [t];
      RefusedSecond(s, t, k);
    } else {
      schedule := [t] + [t] + [t] + [t];
      RefusedFirst(s, t, k);
    }
  }

  // ---------------------------------------------------------------- every run can be completed

  ghost predicate Releasing(th: Thread) {
    th.pc.Held? || th.pc.Restore? || th.pc.Leave?
  }

  /** Waiting with nothing held, or finished */
  ghost predicate Resting(th: Thread) {
    HoldsNothing(th) && (th.pc.Wait? || th.pc == Done)
  }

  /** schedule leads from s to s' by steps of thread t alone. */
  ghost predicate Alone(s: System, t: nat, schedule: seq<nat>, s': System) {
    && Run(s, schedule) == Some(s')
    && |s'.threads| == |s.threads|
    && forall u :: 0 <= u < |s.threads| && u != t ==> s'.threads[u] == s.threads[u]
  }

  lemma OneMore(s: System, t: nat, rest: seq<nat>, s': System)
    requires t < |s.threads| && Step(s, t).Some? && Alone(Step(s, t).value, t, rest, s')
    ensures Alone(s, t, [t] + rest, s')
  {
    hide Step, Run;
    StepIsLocal(s, t);
    RunOnce(s, t);
    RunConcat(s, [t], rest);
  }

  /** How many steps a thread is at most away from its next rest or from holding everything */
  ghost function Distance(pc: Pc): nat {
    match pc
    case Wait(_) => 5
    case TryFirst(_) => 4
    case TrySecond(_) => 3
    case UndoFirst(_) => 2
    case UndoLead(_) => 1
    case Held => 9
    case Restore(i) => if i <= 3 then 8 - i else 0
    case Leave(i) => if i <= 3 then 4 - i else 0
    case Done => 0
  }

  lemma AlwaysEnabled(s: System, t: nat)
    requires t < |s.threads| && Invariant(s) && !s.threads[t].pc.Wait? && s.threads[t].pc != Done
    ensures Step(s, t).Some?
  {
    if Step(s, t).None? {
      WaitersHoldNothing(s, t);
    }
  }

  lemma ReleaseProgress(s: System, t: nat)
    requires t < |s.threads| && Invariant(s) && Releasing(s.threads[t]) && Step(s, t).Some?
    ensures var th := Step(s, t).value.threads[t];
      (Releasing(th) || th.pc == Done) && Distance(th.pc) < Distance(s.threads[t].pc)
  {
    assert ThreadOk(s.threads[t]);
  }

  /** A thread that holds everything can finish on its own. */
  lemma {:induction false} ReleaseAlone(s: System, t: nat) returns (schedule: seq<nat>, s': System)
    requires t < |s.threads| && Invariant(s) && (Releasing(s.threads[t]) || s.threads[t].pc == Done)
    ensures Alone(s, t, schedule, s') && Invariant(s') && s'.threads[t].pc == Done
    decreases Distance(s.threads[t].pc)
  {
    hide Invariant, Step;
    if s.threads[t].pc == Done {
      schedule, s' := [], s;
    } else {
      AlwaysEnabled(s, t);
      ReleaseProgress(s, t);
      StepKeepsInvariant(s, t);
      StepIsLocal(s, t);
      var rest;
      rest, s' := ReleaseAlone(Step(s, t).value, t);
      schedule := [t] + rest;
      OneMore(s, t, rest, s');
    }
  }

  /** A thread still acquiring comes nearer to its next rest, or holds everything. */
  lemma AcquiringProgress(s: System, t: nat)
    requires t < |s.threads| && ThreadOk(s.threads[t]) && Step(s, t).Some?
    requires var pc := s.threads[t].pc; pc.Wait? || pc.TryFirst? || pc.TrySecond? || pc.UndoFirst?
    ensures var pc := Step(s, t).value.threads[t].pc; pc == Held || Distance(pc) < Distance(s.threads[t].pc)
  {
    hide Acquire, Attempt, Surrender;
    match s.threads[t].pc
    case Wait(k) => ThreadAfter(s, t, k, TryFirst(k), Done);
    case TryFirst(k) => ThreadAfter(s, t, First(k), TrySecond(k), UndoFirst(k));
    case TrySecond(k) => ThreadAfter(s, t, Second(k), Held, UndoFirst(k));
    case UndoFirst(k) => ThreadAfter(s, t, First(k), UndoLead(k), Done);
  }

  /** The last mutex given back, the thread rests. */
  lemma LeadIsLast(s: System, t: nat)
    requires t < |s.threads| && ThreadOk(s.threads[t]) && s.threads[t].pc.UndoLead?
    ensures Step(s, t).Some? && Resting(Step(s, t).value.threads[t])
  {
    hide Acquire, Attempt, Surrender;
    var k := s.threads[t].pc.k;
    ThreadAfter(s, t, k, Wait(if k == 2 then 0 else k + 1), Done);
  }

  lemma SettleProgress(s: System, t: nat)
    requires t < |s.threads| && Invariant(s) && !Resting(s.threads[t]) && !Releasing(s.threads[t])
    ensures Step(s, t).Some?
    ensures var th := Step(s, t).value.threads[t];
      Resting(th) || Releasing(th) || Distance(th.pc) < Distance(s.threads[t].pc)
  {
    assert ThreadOk(s.threads[t]);
    hide Consistent, Step, ThreadOk, Distance;
    if Step(s, t).None? {
      WaitersHoldNothing(s, t);
    } else if s.threads[t].pc.UndoLead? {
      LeadIsLast(s, t);
    } else {
      DoneIsResting(s.threads[t]);
      AcquiringProgress(s, t);
    }
  }

  lemma DoneIsResting(th: Thread)
    requires ThreadOk(th)
    ensures th.pc == Done ==> Resting(th)
  {
  }

  /** A thread can come to rest, holding nothing, or finish, on its own. */
  lemma {:induction false} SettleAlone(s: System, t: nat) returns (schedule: seq<nat>, s': System)
    requires t < |s.threads| && Invariant(s)
    ensures Alone(s, t, schedule, s') && Invariant(s') && Resting(s'.threads[t])
    ensures s.threads[t].pc == Done ==> s'.threads[t].pc == Done
    decreases Distance(s.threads[t].pc)
  {
    hide Step;
    if Resting(s.threads[t]) {
      schedule, s' := [], s;
    } else if Releasing(s.threads[t]) {
      schedule, s' := ReleaseAlone(s, t);
      assert ThreadOk(s'.threads[t]);
    } else {
      hide Invariant;
      SettleProgress(s, t);
      StepKeepsInvariant(s, t);
      StepIsLocal(s, t);
      var rest;
      var next := Step(s, t).value;
      if Resting(next.threads[t]) {
        rest, s' := [], next;
      } else if Releasing(next.threads[t]) {
        rest, s' := ReleaseAlone(next, t);
        DoneRests(s', t);
      } else {
        rest, s' := SettleAlone(next, t);
      }
      schedule := [t] + rest;
      OneMore(s, t, rest, s');
    }
  }

  lemma DoneRests(s: System, t: nat)
    requires t < |s.threads| && Invariant(s) && s.threads[t].pc == Done
    ensures Resting(s.threads[t])
  {
    assert ThreadOk(s.threads[t]);
  }

  ghost function Unfinished(s: System): set<nat> {
    set t: nat | t < |s.threads| && s.threads[t].pc != Done
  }

  /** All threads can come to rest one after the other. */
  lemma {:induction false} SettleAll(s: System, n: nat) returns (schedule: seq<nat>, s': System)
    requires n <= |s.threads| && Invariant(s)
    ensures Run(s, schedule) == Some(s') && Invariant(s') && |s'.threads| == |s.threads|
    ensures forall t :: 0 <= t < n ==> Resting(s'.threads[t])
    ensures Unfinished(s') <= Unfinished(s)
  {
    hide Invariant, Step, Resting;
    if n == 0 {
      schedule, s' := [], s;
    } else {
      var first, mid := SettleAll(s, n - 1);
      var last;
      last, s' := SettleAlone(mid, n - 1);
      RunConcat(s, first, last);
      schedule := first + last;
    }
  }

  /** When everybody rests all mutexes are free. */
  lemma NothingHeld(s: System)
    requires Invariant(s) && forall t :: 0 <= t < |s.threads| ==> Resting(s.threads[t])
    ensures s.locks == map[]
  {
    forall m | m in s.locks
      ensures false
    {
      HolderHolds(s, m);
    }
  }

  /** With the other mutexes free, or its own, a thread is granted each it asks for. */
  ghost predicate OnlyHolder(s: System, t: nat) {
    forall m :: m in s.locks ==> s.locks[m].holder == t
  }

  lemma Granted(s: System, t: nat)
    requires t < |s.threads| && OnlyHolder(s, t) && Tracked(s.threads[t])
    requires var pc := s.threads[t].pc; pc.Wait? || pc.TryFirst? || pc.TrySecond?
    ensures Step(s, t).Some? && OnlyHolder(Step(s, t).value, t)
    ensures Step(s, t).value.threads[t].pc ==
      match s.threads[t].pc
      case Wait(k) => TryFirst(k)
      case TryFirst(k) => TrySecond(k)
      case _ => Held
  {
  }

  /** With all mutexes free a waiting thread takes its three in three steps. */
  lemma TakeAll(s: System, t: nat) returns (s3: System)
    requires t < |s.threads| && Invariant(s) && s.locks == map[] && s.threads[t].pc.Wait?
    ensures Alone(s, t, [t] + ([t] + ([t] + [])), s3) && Invariant(s3) && s3.threads[t].pc == Held
  {
    hide Step, Consistent;
    InvariantTracks(s, t);
    Granted(s, t);
    var s1 := Step(s, t).value;
    StepKeepsInvariant(s, t);
    StepIsLocal(s, t);
    InvariantTracks(s1, t);
    Granted(s1, t);
    var s2 := Step(s1, t).value;
    StepKeepsInvariant(s1, t);
    StepIsLocal(s1, t);
    InvariantTracks(s2, t);
    Granted(s2, t);
    s3 := Step(s2, t).value;
    StepKeepsInvariant(s2, t);
    StepIsLocal(s2, t);
    hide Invariant;
    assert Alone(s3, t, [], s3);
    OneMore(s2, t, [], s3);
    OneMore(s1, t, [t] + [], s3);
    OneMore(s, t, [t] + ([t] + []), s3);
  }

  lemma InvariantTracks(s: System, t: nat)
    requires Invariant(s) && t < |s.threads|
    ensures Tracked(s.threads[t])
  {
    OkIsTracked(s.threads[t]);
  }

  lemma FinishOne(s: System) returns (schedule: seq<nat>, s': System)
    requires Invariant(s) && Unfinished(s) != {}
    ensures Run(s, schedule) == Some(s') && Invariant(s') && Unfinished(s') < Unfinished(s)
  {
    hide Invariant, Step, Resting;
    var settle, calm := SettleAll(s, |s.threads|);
    if Unfinished(calm) < Unfinished(s) {
      schedule, s' := settle, calm;
    } else {
      var t :| t in Unfinished(s);
      NothingHeld(calm);
      RestingWaits(calm, t);
      var full := TakeAll(calm, t);
      var release;
      release, s' := ReleaseAlone(full, t);
      var take := [t] + ([t] + ([t] + []));
      RunConcat(s, settle, take);
      RunConcat(s, settle + take, release);
      schedule := settle + take + release;
      assert t !in Unfinished(s');
    }
  }

  lemma RestingWaits(s: System, t: nat)
    requires t < |s.threads| && Resting(s.threads[t]) && s.threads[t].pc != Done
    ensures s.threads[t].pc.Wait?
  {
  }

  /** From every reachable state all threads can still finish: no state is a trap. */
  lemma {:induction false} CanFinish(s: System) returns (schedule: seq<nat>)
    requires Invariant(s)
    ensures Run(s, schedule).Some? && Unfinished(Run(s, schedule).value) == {}
    decreases Unfinished(s)
  {
    hide Invariant, Step;
    if Unfinished(s) == {} {
      schedule := [];
    } else {
      var first, s' := FinishOne(s);
      var rest := CanFinish(s');
      RunConcat(s, first, rest);
      schedule := first + rest;
    }
  }

  lemma EveryRunCanFinish(s0: System, schedule: seq<nat>)
    requires Initial(s0) && forall t :: 0 <= t < |s0.threads| ==> Safe(s0.threads[t].own)
    requires Run(s0, schedule).Some?
    ensures exists more ::
      Run(s0, schedule + more).Some? && Unfinished(Run(s0, schedule + more).value) == {}
  {
    hide Invariant, Step;
    InitialIsInvariant(s0);
    RunKeepsInvariant(s0, schedule);
    var more := CanFinish(Run(s0, schedule).value);
    RunConcat(s0, schedule, more);
  }

  // ---------------------------------------------------------------- the flags that are not safe

  ghost predicate AllUse(s: System, own: Flags) {
    forall t :: 0 <= t < |s.threads| ==> s.threads[t].own == own
  }

  ghost predicate ReachesDeadlock(s0: System, schedule: seq<nat>) {
    Run(s0, schedule).Some? && Deadlocked(Run(s0, schedule).value)
  }

  function Entering(own: Flags, mutexes: Mutexes): Thread {
    Thread(Wait(0), own, mutexes, own)
  }

  /** Two threads that each hold, as their second or third mutex, the one the other wants
      first block at once. */
  lemma CrossedEntry(own: Flags) returns (s0: System)
    requires !own[0] && (own[1] || own[2])
    ensures Initial(s0) && AllUse(s0, own) && ReachesDeadlock(s0, [])
  {
    var a := Entering(own, if own[1] then [1, 2, 3] else [1, 4, 2]);
    var b := Entering(own, if own[1] then [2, 1, 5] else [2, 6, 1]);
    var held := map[2 := Lock(0, 1), 1 := Lock(1, 1)];
    var locks := if own[1] && own[2] then held[3 := Lock(0, 1)][5 := Lock(1, 1)] else held;
    s0 := System([a, b], locks);
    assert Step(s0, 0).None? && Step(s0, 1).None?;
    assert s0.threads[0].pc != Done;
  }

  const THIRD_ONLY: Flags := [false, false, true]

  /** With the first and third mutex held on entry and the second refused, the thread gives
      back the first only and waits for the second. */
  lemma RefusedRound(s: System, t: nat) returns (s4: System)
    requires t < |s.threads|
    requires var th := s.threads[t];
      && th == Entering([true, false, true], th.mutexes)
      && th.mutexes[1] in s.locks && s.locks[th.mutexes[1]].holder != t
      && th.mutexes[0] in s.locks && s.locks[th.mutexes[0]].count == 1
    ensures Run(s, [t] + [t] + [t] + [t]) == Some(s4)
    ensures s4 == Update(s, t, s.threads[t].(pc := Wait(1), state := THIRD_ONLY), s.locks - {s.threads[t].mutexes[0]})
  {
    var th := s.threads[t];
    var s1 := Update(s, t, th.(pc := TryFirst(0)), s.locks);
    var s2 := Update(s1, t, th.(pc := UndoFirst(0)), s.locks);
    var s3 := Update(s2, t, th.(pc := UndoLead(0)), s.locks);
    s4 := Update(s3, t, th.(pc := Wait(1), state := THIRD_ONLY), s.locks - {th.mutexes[0]});
    assert Step(s, t) == Some(s1) && Step(s1, t) == Some(s2) && Step(s2, t) == Some(s3);
    assert th.state[0 := false] == THIRD_ONLY;
    assert Step(s3, t) == Some(s4);
    FourSteps(s, s1, s2, s3, s4, t);
  }

  /** Two such threads that hold, as their third mutex, the second of the other */
  lemma KeptThird() returns (s0: System, schedule: seq<nat>)
    ensures Initial(s0) && AllUse(s0, [true, false, true]) && ReachesDeadlock(s0, schedule)
  {
    var own: Flags := [true, false, true];
    var a, b := Entering(own, [3, 1, 2]), Entering(own, [4, 2, 1]);
    s0 := System([a, b], map[3 := Lock(0, 1), 2 := Lock(0, 1), 4 := Lock(1, 1), 1 := Lock(1, 1)]);
    hide Run;
    var s4 := RefusedRound(s0, 0);
    var s8 := RefusedRound(s4, 1);
    var four: seq<nat> := [0] + [0] + [0] + [0];
    schedule := four + ([1] + [1] + [1] + [1]);
    RunConcat(s0, four, [1] + [1] + [1] + [1]);
    assert Step(s8, 0).None? && Step(s8, 1).None?;
    assert s8.threads[0].pc != Done;
  }

  /** Any number of threads using the same flags on any mutexes are free of deadlock exactly
      when the flags are safe. */
  lemma DeadlockFreedom(own: Flags)
    ensures (own[2] ==> own[1]) && (own[1] ==> own[0]) <==>
      forall s0, schedule :: Initial(s0) && AllUse(s0, own) ==> !ReachesDeadlock(s0, schedule)
  {
    if Safe(own) {
      forall s0, schedule | Initial(s0) && AllUse(s0, own)
        ensures !ReachesDeadlock(s0, schedule)
      {
        if Run(s0, schedule).Some? {
          SafeThreadsDoNotDeadlock(s0, schedule);
        }
      }
    } else if !own[0] {
      var s0 := CrossedEntry(own);
    } else {
      assert own == [true, false, true];
      var s0, schedule := KeptThird();
    }
  }
}

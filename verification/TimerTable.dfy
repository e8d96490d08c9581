/** What the timer wheel is for: a table of alarms, each due at a certain tick, and what its
    users can rely on over whole runs (airguitar/src/bse/src/bs_tmo.c). */
module TimerTable {
  import opened Collections
  import opened Lists

  const RESOLUTION: nat := 10

  /** Ticks from setting a timer to its first call */
  function Delay(msec: nat): (d: nat)
    ensures 10 * (d - 1) <= msec < 10 * d
  {
    msec / RESOLUTION + 1
  }

  /** Ticks between the calls of a repeating timer: the period rounded up, except that a zero
      period wraps the unsigned lap count around */
  function Period(msec: nat): (p: nat)
    ensures msec > 0 ==> 10 * (p - 1) < msec <= 10 * p
    ensures msec == 0 ==> p == 0x1_0000_0000
  {
    if msec == 0 then 0x1_0000_0000 else (msec + RESOLUTION - 1) / RESOLUTION
  }

  datatype Alarm = Alarm(due: nat, msec: nat, func: bool)

  datatype Table = Table(ticks: nat, alarms: map<Node, Alarm>)

  /** The calls a user can make, and the tick with what the callbacks answer */
  datatype Op =
    | Set(timer: Node, msec: nat, func: bool)
    | Cancel(timer: Node)
    | Reset(timer: Node)
    | Tick(repeats: Node -> bool)

  ghost function Apply(t: Table, op: Op): Table {
    match op
    case Set(x, msec, func) => t.(alarms := t.alarms[x := Alarm(t.ticks + Delay(msec), msec, func)])
    case Cancel(x) => t.(alarms := t.alarms - {x})
    case Reset(x) =>
      if x in t.alarms then t.(alarms := t.alarms[x := t.alarms[x].(due := t.ticks + Delay(t.alarms[x].msec))]) else t
    case Tick(repeats) =>
      var now := t.ticks + 1;
      Table(now, map x | x in t.alarms && (t.alarms[x].due != now || (t.alarms[x].func && repeats(x)))
        :: if t.alarms[x].due == now then t.alarms[x].(due := now + Period(t.alarms[x].msec)) else t.alarms[x])
  }

  /** The timers called by an operation */
  ghost function Calls(t: Table, op: Op): set<Node> {
    if op.Tick? then set x | x in t.alarms && t.alarms[x].due == t.ticks + 1 && t.alarms[x].func else {}
  }

  ghost function After(t: Table, ops: seq<Op>): Table {
    if |ops| == 0 then t else Apply(After(t, ops[..|ops| - 1]), ops[|ops| - 1])
  }

  /** The ticks at which x is called during a run */
  ghost function CallTicks(t: Table, ops: seq<Op>, x: Node): seq<nat> {
    if |ops| == 0 then []
    else
      var before, op := After(t, ops[..|ops| - 1]), ops[|ops| - 1];
      CallTicks(t, ops[..|ops| - 1], x) + if x in Calls(before, op) then [before.ticks + 1] else []
  }

  /** No operation of the run but ticks concerns x. */
  ghost predicate LeftAlone(ops: seq<Op>, x: Node) {
    forall k :: 0 <= k < |ops| ==> ops[k].Tick? || ops[k].timer != x
  }

  /** Every callback of x asks to be called again. */
  ghost predicate AlwaysRepeats(ops: seq<Op>, x: Node) {
    forall k :: 0 <= k < |ops| && ops[k].Tick? ==> ops[k].repeats(x)
  }

  ghost predicate NeverRepeats(ops: seq<Op>, x: Node) {
    forall k :: 0 <= k < |ops| && ops[k].Tick? ==> !ops[k].repeats(x)
  }

  /** The tick of call number k of a timer first due at d */
  ghost function CallTick(d: nat, period: nat, k: nat): nat {
    if k == 0 then d else CallTick(d, period, k - 1) + period
  }

  /** What the callback of x answered at a tick of the run */
  ghost predicate Answer(t: Table, ops: seq<Op>, x: Node, tick: int) {
    if |ops| == 0 then false
    else
      var front, op := ops[..|ops| - 1], ops[|ops| - 1];
      if op.Tick? && After(t, front).ticks + 1 == tick then op.repeats(x) else Answer(t, front, x, tick)
  }

  /** The calls came at the ticks a.due + k * period. All but the last asked for the next; if the
      last did too, the timer is armed for the call that comes next, and otherwise it is gone. */
  ghost predicate Scheduled(a: Alarm, calls: seq<nat>, answer: int -> bool, end: Table, x: Node) {
    && (forall k :: 0 <= k < |calls| ==> calls[k] == CallTick(a.due, Period(a.msec), k) <= end.ticks)
    && (forall k :: 0 <= k < |calls| - 1 ==> answer(calls[k]))
    && if |calls| == 0 || answer(calls[|calls| - 1]) then
         && x in end.alarms
         && end.alarms[x] == a.(due := CallTick(a.due, Period(a.msec), |calls|))
         && end.alarms[x].due > end.ticks
       else x !in end.alarms
  }

  ghost predicate OnSchedule(t: Table, ops: seq<Op>, x: Node)
    requires x in t.alarms
  {
    Scheduled(t.alarms[x], CallTicks(t, ops, x), (tick: int) => Answer(t, ops, x, tick), After(t, ops), x)
  }

  lemma {:induction false} KeepsSchedule(t: Table, ops: seq<Op>, x: Node)
    requires x in t.alarms && t.alarms[x].func && t.alarms[x].due > t.ticks
    requires LeftAlone(ops, x)
    ensures OnSchedule(t, ops, x)
  {
    if |ops| > 0 {
      var front, op := ops[..|ops| - 1], ops[|ops| - 1];
      KeepsSchedule(t, front, x);
      var calls, before := CallTicks(t, front, x), After(t, front);
      var answer, answer' := (tick: int) => Answer(t, front, x, tick), (tick: int) => Answer(t, ops, x, tick);
      ScheduleStep(t.alarms[x], calls, answer, answer', before, op, x);
    }
  }

  lemma ScheduleStep(a: Alarm, calls: seq<nat>, answer: int -> bool, answer': int -> bool, before: Table, op: Op,
          x: Node)
    requires Scheduled(a, calls, answer, before, x) && a.func && (op.Tick? || op.timer != x)
    requires forall tick :: tick <= before.ticks ==> answer'(tick) == answer(tick)
    requires op.Tick? ==> answer'(before.ticks + 1) == op.repeats(x)
    ensures var more := if x in Calls(before, op) then [before.ticks + 1] else [];
      Scheduled(a, calls + more, answer', Apply(before, op), x)
  {
    if x in before.alarms {
      OneStep(before, op, x);
      NextCall(a.due, Period(a.msec), |calls|);
    }
    hide Period, CallTick;
    assert x !in Calls(before, op) ==> calls + [] == calls;
  }

  lemma {:induction false} CallTickIsLater(d: nat, period: nat, k: nat)
    ensures CallTick(d, period, k) >= d
  {
    if k > 0 {
      CallTickIsLater(d, period, k - 1);
    }
  }

  lemma NextCall(d: nat, period: nat, k: nat)
    ensures CallTick(d, period, k + 1) == CallTick(d, period, k) + period
  {
  }

  lemma OneStep(t: Table, op: Op, x: Node)
    requires x in t.alarms && t.alarms[x].func && t.alarms[x].due > t.ticks
    requires op.Tick? || op.timer != x
    ensures var t', called := Apply(t, op), x in Calls(t, op);
      && t'.ticks == t.ticks + (if op.Tick? then 1 else 0)
      && (called <==> op.Tick? && t.alarms[x].due == t'.ticks)
      && (x in t'.alarms <==> !called || op.repeats(x))
      && (x in t'.alarms ==>
            && t'.alarms[x] ==
               (if called then t.alarms[x].(due := t'.ticks + Period(t.alarms[x].msec)) else t.alarms[x])
            && t'.alarms[x].due > t'.ticks)
  {
    assert Period(t.alarms[x].msec) > 0;
  }

  /** The ticks of the calls made during a run and of the one still to come, if any */
  ghost function Schedule(t: Table, ops: seq<Op>, x: Node): seq<nat> {
    CallTicks(t, ops, x) + if x in After(t, ops).alarms then [After(t, ops).alarms[x].due] else []
  }

  /** Two calls are a period apart, in milliseconds: the least number of ticks that is not shorter,
      or 2^32 ticks when the period is 0. */
  lemma Spacing(a: Alarm, calls: seq<nat>, answer: int -> bool, end: Table, x: Node)
    requires Scheduled(a, calls, answer, end, x)
    ensures var s := calls + if x in end.alarms then [end.alarms[x].due] else [];
      && |s| > 0 && s[0] == a.due
      && (a.msec > 0 ==> forall k, l :: 0 <= k < l < |s| && l == k + 1 ==>
            10 * s[k] + a.msec <= 10 * s[l] < 10 * s[k] + a.msec + 10)
      && (a.msec == 0 ==> forall k, l :: 0 <= k < l < |s| && l == k + 1 ==> s[l] == s[k] + 0x1_0000_0000)
  {
    var s := calls + if x in end.alarms then [end.alarms[x].due] else [];
    forall k, l | 0 <= k < l < |s| && l == k + 1
      ensures s[l] == s[k] + Period(a.msec)
    {
      NextCall(a.due, Period(a.msec), k);
    }
  }

  /** Whatever the callback answers: the calls of a timer that is left alone begin at the tick it is
      due and come a period apart, up to and including the first that is refused a repetition. */
  lemma TimerRun(t: Table, ops: seq<Op>, x: Node)
    requires x in t.alarms && t.alarms[x].func && t.alarms[x].due > t.ticks
    requires LeftAlone(ops, x)
    ensures OnSchedule(t, ops, x)
    ensures var s, msec := Schedule(t, ops, x), t.alarms[x].msec;
      && |s| > 0 && s[0] == t.alarms[x].due
      && (msec > 0 ==> forall k, l :: 0 <= k < l < |s| && l == k + 1 ==>
            10 * s[k] + msec <= 10 * s[l] < 10 * s[k] + msec + 10)
      && (msec == 0 ==> forall k, l :: 0 <= k < l < |s| && l == k + 1 ==> s[l] == s[k] + 0x1_0000_0000)
  {
    KeepsSchedule(t, ops, x);
    Spacing(t.alarms[x], CallTicks(t, ops, x), (tick: int) => Answer(t, ops, x, tick), After(t, ops), x);
  }

  lemma {:induction false} AnswersYes(t: Table, ops: seq<Op>, x: Node, tick: int)
    requires AlwaysRepeats(ops, x) && t.ticks < tick <= After(t, ops).ticks
    ensures Answer(t, ops, x, tick)
  {
    if |ops| > 0 && tick <= After(t, ops[..|ops| - 1]).ticks {
      AnswersYes(t, ops[..|ops| - 1], x, tick);
    }
  }

  /** A repeating timer that is left alone is called at due + k * period: no call is missed, none
      is early or late, and the timer stays armed for the next. */
  lemma RepeatingTimer(t: Table, ops: seq<Op>, x: Node)
    requires x in t.alarms && t.alarms[x].func && t.alarms[x].due > t.ticks
    requires LeftAlone(ops, x) && AlwaysRepeats(ops, x)
    ensures var a, calls, end := t.alarms[x], CallTicks(t, ops, x), After(t, ops);
      && (forall k :: 0 <= k < |calls| ==> calls[k] == CallTick(a.due, Period(a.msec), k))
      && x in end.alarms && Schedule(t, ops, x) == calls + [end.alarms[x].due]
      && end.alarms[x] == a.(due := CallTick(a.due, Period(a.msec), |calls|))
      && end.alarms[x].due > end.ticks
    ensures var s, msec := Schedule(t, ops, x), t.alarms[x].msec;
      && s[0] == t.alarms[x].due
      && (msec > 0 ==> forall k, l :: 0 <= k < l < |s| && l == k + 1 ==>
            10 * s[k] + msec <= 10 * s[l] < 10 * s[k] + msec + 10)
      && (msec == 0 ==> forall k, l :: 0 <= k < l < |s| && l == k + 1 ==> s[l] == s[k] + 0x1_0000_0000)
  {
    hide Answer, After, CallTicks, Period, CallTick, Apply;
    TimerRun(t, ops, x);
    var a, calls := t.alarms[x], CallTicks(t, ops, x);
    if |calls| > 0 {
      CallTickIsLater(a.due, Period(a.msec), |calls| - 1);
      AnswersYes(t, ops, x, calls[|calls| - 1]);
    }
  }

  ghost predicate OneShot(a: Alarm, calls: seq<nat>, end: Table, x: Node) {
    && calls == (if a.func && end.ticks >= a.due then [a.due] else [])
    && (if end.ticks >= a.due then x !in end.alarms else x in end.alarms && end.alarms[x] == a)
  }

  lemma OneShotStep(a: Alarm, calls: seq<nat>, before: Table, op: Op, x: Node)
    requires OneShot(a, calls, before, x) && (op.Tick? || op.timer != x)
    requires op.Tick? && a.func ==> !op.repeats(x)
    ensures OneShot(a, calls + (if x in Calls(before, op) then [before.ticks + 1] else []), Apply(before, op), x)
  {
    assert calls + [] == calls;
    hide Period, Delay;
  }

  /** A timer that is left alone and does not repeat is called once, at the tick it is due, and
      never again; without a callback it goes off the wheel at that tick uncalled. */
  lemma {:induction false} OneShotTimer(t: Table, ops: seq<Op>, x: Node)
    requires x in t.alarms && t.alarms[x].due > t.ticks
    requires LeftAlone(ops, x) && (t.alarms[x].func ==> NeverRepeats(ops, x))
    ensures OneShot(t.alarms[x], CallTicks(t, ops, x), After(t, ops), x)
  {
    if |ops| > 0 {
      hide OneShot, Apply, Calls;
      var front, op := ops[..|ops| - 1], ops[|ops| - 1];
      OneShotTimer(t, front, x);
      OneShotStep(t.alarms[x], CallTicks(t, front, x), After(t, front), op, x);
    }
  }

  /** A timer that is not armed is never called. */
  lemma {:induction false} UnarmedTimer(t: Table, ops: seq<Op>, x: Node)
    requires x !in t.alarms && LeftAlone(ops, x)
    ensures CallTicks(t, ops, x) == [] && x !in After(t, ops).alarms
  {
    if |ops| > 0 {
      UnarmedTimer(t, ops[..|ops| - 1], x);
      hide Period, Delay;
    }
  }

  lemma {:induction false} CallTickClosedForm(d: nat, period: nat, k: nat)
    ensures CallTick(d, period, k) == d + period * k
  {
    if k > 0 {
      CallTickClosedForm(d, period, k - 1);
    }
  }

  lemma ClosedForm(t: Table, x: Node, ops: seq<Op>)
    requires x in t.alarms && t.alarms[x].func && t.alarms[x].due > t.ticks
    requires LeftAlone(ops, x)
    ensures var calls, end := CallTicks(t, ops, x), After(t, ops);
      var due, period := t.alarms[x].due, Period(t.alarms[x].msec);
      && (forall k :: 0 <= k < |calls| ==> calls[k] == due + period * k)
      && (forall k :: 0 <= k < |calls| - 1 ==> Answer(t, ops, x, calls[k]))
      && (x !in end.alarms ==> |calls| > 0 && !Answer(t, ops, x, calls[|calls| - 1]))
      && (x in end.alarms ==> end.ticks < due + period * |calls|)
  {
    hide Period, Answer, CallTicks, After, CallTick;
    KeepsSchedule(t, ops, x);
    var calls, due, period := CallTicks(t, ops, x), t.alarms[x].due, Period(t.alarms[x].msec);
    CallTickClosedForm(due, period, |calls|);
    forall k | 0 <= k < |calls|
      ensures calls[k] == due + period * k
    {
      CallTickClosedForm(due, period, k);
    }
  }

  /** A timer set at tick t is called first at tick t + msec / 10 + 1 and then every period, up to
      and including the first call that is refused a repetition. */
  lemma SetTimer(t: Table, x: Node, msec: nat, ops: seq<Op>)
    requires LeftAlone(ops, x)
    ensures var t1 := Apply(t, Set(x, msec, true));
      var calls, end := CallTicks(t1, ops, x), After(t1, ops);
      var due := t.ticks + msec / 10 + 1;
      && (forall k :: 0 <= k < |calls| ==> calls[k] == due + Period(msec) * k)
      && (forall k :: 0 <= k < |calls| - 1 ==> Answer(t1, ops, x, calls[k]))
      && (x !in end.alarms ==> |calls| > 0 && !Answer(t1, ops, x, calls[|calls| - 1]))
      && (x in end.alarms ==> end.ticks < due + Period(msec) * |calls|)
    ensures var s := Schedule(Apply(t, Set(x, msec, true)), ops, x);
      && |s| > 0 && s[0] == t.ticks + msec / 10 + 1
      && (msec > 0 ==> forall k, l :: 0 <= k < l < |s| && l == k + 1 ==>
            10 * s[k] + msec <= 10 * s[l] < 10 * s[k] + msec + 10)
      && (msec == 0 ==> forall k, l :: 0 <= k < l < |s| && l == k + 1 ==> s[l] == s[k] + 0x1_0000_0000)
  {
    var t1 := Apply(t, Set(x, msec, true));
    assert t1.alarms[x] == Alarm(t.ticks + msec / 10 + 1, msec, true);
    hide *;
    TimerRun(t1, ops, x);
    ClosedForm(t1, x, ops);
  }

  /** A reset timer is called as if it had been set anew, with the period it has. */
  lemma ResetTimer(t: Table, x: Node, ops: seq<Op>)
    requires x in t.alarms && t.alarms[x].func && LeftAlone(ops, x)
    ensures var s, msec := Schedule(Apply(t, Reset(x)), ops, x), t.alarms[x].msec;
      && |s| > 0 && s[0] == t.ticks + msec / 10 + 1
      && (msec > 0 ==> forall k, l :: 0 <= k < l < |s| && l == k + 1 ==>
            10 * s[k] + msec <= 10 * s[l] < 10 * s[k] + msec + 10)
      && (msec == 0 ==> forall k, l :: 0 <= k < l < |s| && l == k + 1 ==> s[l] == s[k] + 0x1_0000_0000)
  {
    var t1, msec := Apply(t, Reset(x)), t.alarms[x].msec;
    assert t1.alarms[x] == Alarm(t.ticks + msec / 10 + 1, msec, true);
    TimerRun(t1, ops, x);
  }

  /** A cancelled timer is not called again. */
  lemma CancelledTimer(t: Table, x: Node, ops: seq<Op>)
    requires LeftAlone(ops, x)
    ensures CallTicks(Apply(t, Cancel(x)), ops, x) == []
  {
    UnarmedTimer(Apply(t, Cancel(x)), ops, x);
  }
}

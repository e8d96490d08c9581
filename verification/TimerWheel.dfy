/** The hashed timer wheel (airguitar/src/bse/src/bs_tmo.c). The wheel is proved to behave
    like a table that maps every armed timer to the tick at which it is due. */
module TimerWheel {
  import opened Collections
  import opened Lists
  import opened TimerTable

  const SLOTS: nat := 256
  /** slot >> 8 divides by this. */
  const LAP_SLOTS: nat := 0x100

  /** Ticks from slot cur to slot s, counting the next tick as 0 */
  function SlotDistance(s: nat, cur: nat): (d: nat)
    requires s < SLOTS && cur < SLOTS
    ensures d < SLOTS
  {
    if s > cur then s - cur - 1 else s + SLOTS - cur - 1
  }

  /** Ticks until a timer with this lap count in slot s fires */
  function Remaining(lap: nat, s: nat, cur: nat): (r: nat)
    requires s < SLOTS && cur < SLOTS
    ensures r >= 1
  {
    SLOTS * lap + SlotDistance(s, cur) + 1
  }

  ghost predicate Rings(wheel: seq<Node>, lists: seq<seq<Node>>)
    reads wheel, set s, k | 0 <= s < |lists| && 0 <= k < |lists[s]| :: lists[s][k]
  {
    && |wheel| == |lists| == SLOTS
    && (forall i, j :: 0 <= i < j < SLOTS ==> wheel[i] != wheel[j])
    && (forall s :: 0 <= s < SLOTS ==> Ring(wheel[s], lists[s]))
  }

  /** The owner pointer keeps the lists apart. */
  lemma Apart(wheel: seq<Node>, lists: seq<seq<Node>>, s: nat, k: nat, s0: nat)
    requires Rings(wheel, lists) && s < SLOTS && k < |lists[s]| && s0 < SLOTS
    ensures s != s0 ==> lists[s][k] !in lists[s0]
    ensures lists[s][k] != wheel[s0]
  {
    assert Ring(wheel[s], lists[s]) && Ring(wheel[s0], lists[s0]);
  }

  lemma AllApart(wheel: seq<Node>, lists: seq<seq<Node>>, s0: nat)
    requires Rings(wheel, lists) && s0 < SLOTS
    ensures forall s, k :: 0 <= s < SLOTS && 0 <= k < |lists[s]| && s != s0 ==> lists[s][k] !in lists[s0]
    ensures forall s, k :: 0 <= s < SLOTS && 0 <= k < |lists[s]| ==> lists[s][k] !in wheel
  {
    forall s, k | 0 <= s < SLOTS && 0 <= k < |lists[s]|
      ensures lists[s][k] !in wheel
      ensures s != s0 ==> lists[s][k] !in lists[s0]
    {
      forall j | 0 <= j < SLOTS
        ensures lists[s][k] != wheel[j]
      {
        Apart(wheel, lists, s, k, j);
      }
      Apart(wheel, lists, s, k, s0);
    }
  }

  lemma ApartFromWheel(wheel: seq<Node>, lists: seq<seq<Node>>, s: nat, k: nat)
    requires Rings(wheel, lists) && s < SLOTS && k < |lists[s]|
    ensures lists[s][k] !in wheel
  {
    AllApart(wheel, lists, s);
  }

  /** InsertFirst into list s0 of a wheel */
  method InsertInto(wheel: seq<Node>, ghost lists: seq<seq<Node>>, s0: nat, tmo: Node)
      returns (ghost after: seq<seq<Node>>)
    requires Rings(wheel, lists) && s0 < SLOTS && tmo !in wheel
    requires forall s :: 0 <= s < SLOTS ==> tmo !in lists[s]
    modifies Members(wheel)`next, Members(wheel)`prev, Members(wheel)`size
    modifies tmo`next, tmo`prev, tmo`head, Members(lists[s0])`prev
    ensures after == lists[s0 := [tmo] + lists[s0]] && Rings(wheel, after)
  {
    AllApart(wheel, lists, s0);
    InsertFirst(wheel[s0], tmo, lists[s0]);
    after := lists[s0 := [tmo] + lists[s0]];
  }

  method RemoveFrom(wheel: seq<Node>, ghost lists: seq<seq<Node>>, ghost s0: nat, ghost i: nat, tmo: Node)
      returns (ghost after: seq<seq<Node>>)
    requires Rings(wheel, lists) && s0 < SLOTS && i < |lists[s0]| && lists[s0][i] == tmo
    modifies Members(wheel)`next, Members(wheel)`prev, Members(wheel)`size
    modifies tmo`head, Members(lists[s0])`next, Members(lists[s0])`prev
    ensures after == lists[s0 := lists[s0][..i] + lists[s0][i + 1..]] && Rings(wheel, after)
    ensures tmo.head == null
  {
    AllApart(wheel, lists, s0);
    Remove(tmo, wheel[s0], lists[s0], i);
    after := lists[s0 := lists[s0][..i] + lists[s0][i + 1..]];
  }

  // ---------------------------------------------------------------- slots, laps and due ticks

  lemma DropLaps(x: nat, laps: nat)
    ensures (x + 256 * laps) % 256 == x % 256
  {
  }

  lemma SetSlot(msec: nat, cur: nat)
    requires cur < SLOTS
    ensures var slot := msec / RESOLUTION;
      Remaining(slot / LAP_SLOTS, (cur + slot + 1) % SLOTS, cur) == Delay(msec)
  {
    var slot := msec / RESOLUTION;
    var q, r := slot / 256, slot % 256;
    assert slot == 256 * q + r;
    DropLaps(cur + r + 1, q);
  }

  /** (slot - 1) >> 8 on 32-bit unsigned integers */
  function RepeatLap(slot: nat): nat {
    (if slot == 0 then 0xFFFF_FFFF else slot - 1) / LAP_SLOTS
  }

  lemma RepeatSlot(msec: nat, cur: nat)
    requires cur < SLOTS
    ensures var slot := msec / RESOLUTION + if msec % RESOLUTION != 0 then 1 else 0;
      Remaining(RepeatLap(slot), (cur + slot) % SLOTS, cur) == Period(msec)
  {
    var slot := msec / RESOLUTION + if msec % RESOLUTION != 0 then 1 else 0;
    if slot > 0 {
      var q, r := (slot - 1) / 256, (slot - 1) % 256;
      assert slot - 1 == 256 * q + r;
      DropLaps(cur + r + 1, q);
      assert slot == Period(msec);
    }
  }

  /** A tick brings every slot one nearer, and leads the slot it reaches all the way round. */
  lemma TickSlot(lap: nat, s: nat, cur: nat)
    requires s < SLOTS && cur < SLOTS
    ensures var now := if cur + 1 == SLOTS then 0 else cur + 1;
      Remaining(lap, s, cur) == if s == now then SLOTS * lap + 1 else Remaining(lap, s, now) + 1
  {
  }

  // ---------------------------------------------------------------- the table of due ticks

  ghost predicate Listed(lists: seq<seq<Node>>, armed: set<Node>) {
    && |lists| == SLOTS
    && (forall s, k :: 0 <= s < SLOTS && 0 <= k < |lists[s]| ==> lists[s][k] in armed)
    && (forall t :: t in armed ==> exists s :: 0 <= s < SLOTS && t in lists[s])
    && (forall s1, s2, t :: 0 <= s1 < s2 < SLOTS && t in armed && t in lists[s1] ==> t !in lists[s2])
  }

  /** Every armed timer is due when its slot and its laps say. A tick has still to visit the
      pending timers: their lap count is from before the tick. */
  ghost predicate Timed(lists: seq<seq<Node>>, due: map<Node, nat>, laps: map<Node, nat>, ticks: nat, cur: nat,
          pending: set<Node>) {
    && Listed(lists, due.Keys)
    && cur < SLOTS && laps.Keys == due.Keys
    && forall s, k :: 0 <= s < SLOTS && 0 <= k < |lists[s]| ==>
         var t := lists[s][k];
         due[t] == ticks + if t in pending then SLOTS * laps[t] else Remaining(laps[t], s, cur)
  }

  lemma TimedInsert(lists: seq<seq<Node>>, due: map<Node, nat>, laps: map<Node, nat>, ticks: nat, cur: nat, s0: nat,
          tmo: Node, lap: nat, pending: set<Node>)
    requires Timed(lists, due, laps, ticks, cur, pending) && tmo !in due && tmo !in pending && s0 < SLOTS
    ensures var due' := due[tmo := ticks + Remaining(lap, s0, cur)];
      Timed(lists[s0 := [tmo] + lists[s0]], due', laps[tmo := lap], ticks, cur, pending)
  {
    var after := lists[s0 := [tmo] + lists[s0]];
    var armed := due[tmo := ticks + Remaining(lap, s0, cur)].Keys;
    forall t | t in armed
      ensures exists s :: 0 <= s < SLOTS && t in after[s]
    {
      if t == tmo {
        assert tmo in after[s0];
      } else {
        var s :| 0 <= s < SLOTS && t in lists[s];
        assert t in after[s];
      }
    }
  }

  lemma ListedRemove(lists: seq<seq<Node>>, armed: set<Node>, s0: nat, i: nat)
    requires Listed(lists, armed) && s0 < SLOTS && i < |lists[s0]|
    requires Distinct(lists[s0])
    ensures Listed(lists[s0 := lists[s0][..i] + lists[s0][i + 1..]], armed - {lists[s0][i]})
  {
    var tmo, rest := lists[s0][i], lists[s0][..i] + lists[s0][i + 1..];
    var after := lists[s0 := rest];
    forall t | t in lists[s0] && t != tmo
      ensures t in rest
    {
      var j :| 0 <= j < |lists[s0]| && lists[s0][j] == t;
      assert rest[if j < i then j else j - 1] == t;
    }
    forall t | t in armed - {tmo}
      ensures exists s :: 0 <= s < SLOTS && t in after[s]
    {
      var s :| 0 <= s < SLOTS && t in lists[s];
      assert t in after[s];
    }
    forall k | 0 <= k < |rest|
      ensures rest[k] in lists[s0] && rest[k] != tmo
    {
    }
  }

  lemma TimedRemove(lists: seq<seq<Node>>, due: map<Node, nat>, laps: map<Node, nat>, ticks: nat, cur: nat, s0: nat,
          i: nat, tmo: Node, pending: set<Node>)
    requires Timed(lists, due, laps, ticks, cur, pending) && s0 < SLOTS && i < |lists[s0]| && lists[s0][i] == tmo
    requires Distinct(lists[s0])
    ensures var after := lists[s0 := lists[s0][..i] + lists[s0][i + 1..]];
      Timed(after, due - {tmo}, laps - {tmo}, ticks, cur, pending - {tmo})
  {
    var after := lists[s0 := lists[s0][..i] + lists[s0][i + 1..]];
    ListedRemove(lists, due.Keys, s0, i);
    assert (due - {tmo}).Keys == due.Keys - {tmo};
    forall s, k | 0 <= s < SLOTS && 0 <= k < |after[s]|
      ensures after[s][k] in lists[s]
    {
    }
    hide Listed;
  }

  lemma NotListed(lists: seq<seq<Node>>, armed: set<Node>, tmo: Node)
    requires Listed(lists, armed) && tmo !in armed
    ensures forall s :: 0 <= s < SLOTS ==> tmo !in lists[s]
    ensures forall s :: 0 <= s < SLOTS ==> Members(lists[s]) <= armed
  {
  }

  lemma TimedMembers(lists: seq<seq<Node>>, due: map<Node, nat>, laps: map<Node, nat>, ticks: nat, cur: nat,
          pending: set<Node>)
    requires Timed(lists, due, laps, ticks, cur, pending)
    ensures Listed(lists, due.Keys)
    ensures forall s :: 0 <= s < SLOTS ==> Members(lists[s]) <= due.Keys
  {
  }

  lemma RingIsDistinct(head: Node, entries: seq<Node>)
    requires Ring(head, entries)
    ensures Distinct(entries)
  {
  }

  lemma FindListed(lists: seq<seq<Node>>, armed: set<Node>, tmo: Node) returns (s: nat, k: nat)
    requires Listed(lists, armed) && tmo in armed
    ensures s < SLOTS && k < |lists[s]| && lists[s][k] == tmo
  {
    s :| 0 <= s < SLOTS && tmo in lists[s];
    k :| 0 <= k < |lists[s]| && lists[s][k] == tmo;
  }

  /** The tick begins: every timer is one tick nearer, and those of the slot reached wait to
      be visited. */
  lemma TimedTick(lists: seq<seq<Node>>, due: map<Node, nat>, laps: map<Node, nat>, ticks: nat, cur: nat)
    requires Timed(lists, due, laps, ticks, cur, {})
    ensures var now := if cur + 1 == SLOTS then 0 else cur + 1;
      && Timed(lists, due, laps, ticks + 1, now, Members(lists[now]))
      && forall t :: t in due && due[t] == ticks + 1 ==> t in lists[now]
  {
    hide Remaining;
    var now := if cur + 1 == SLOTS then 0 else cur + 1;
    forall s, k | 0 <= s < SLOTS && 0 <= k < |lists[s]|
      ensures var t := lists[s][k];
        due[t] == ticks + 1 + if t in lists[now] then SLOTS * laps[t] else Remaining(laps[t], s, now)
    {
      TickSlot(laps[lists[s][k]], s, cur);
    }
    forall t | t in due && due[t] == ticks + 1
      ensures t in lists[now]
    {
      var s, k := FindListed(lists, due.Keys, t);
    }
  }

  /** A visited timer with laps to go has one less. */
  lemma TimedLap(lists: seq<seq<Node>>, due: map<Node, nat>, laps: map<Node, nat>, ticks: nat, cur: nat, k: nat,
          pending: set<Node>)
    requires Timed(lists, due, laps, ticks, cur, pending) && k < |lists[cur]|
    requires lists[cur][k] in pending && laps[lists[cur][k]] > 0
    ensures var t := lists[cur][k];
      Timed(lists, due, laps[t := laps[t] - 1], ticks, cur, pending - {t})
  {
    var t := lists[cur][k];
    forall s, i | 0 <= s < SLOTS && 0 <= i < |lists[s]| && lists[s][i] == t
      ensures s == cur
    {
    }
  }

  lemma PendingDue(lists: seq<seq<Node>>, due: map<Node, nat>, laps: map<Node, nat>, ticks: nat, cur: nat, k: nat,
          pending: set<Node>)
    requires Timed(lists, due, laps, ticks, cur, pending) && k < |lists[cur]| && lists[cur][k] in pending
    ensures lists[cur][k] in due && due[lists[cur][k]] == ticks + SLOTS * laps[lists[cur][k]]
  {
  }

  /** Is called again, in so far as the timer is due */
  ghost predicate Again(t: Node, repeats: Node -> bool)
    reads t`func
  {
    t.func && repeats(t)
  }

  /** What a tick has made of the table after the visit of some of the timers */
  ghost predicate Progress(table: map<Node, nat>, due: map<Node, nat>, now: nat, repeats: Node -> bool,
          visited: set<Node>, calls: seq<Node>)
    reads table.Keys`func, table.Keys`msec
  {
    && due.Keys <= table.Keys
    && (forall t :: t in table ==> (t in due <==> table[t] != now || t !in visited || Again(t, repeats)))
    && (forall t :: t in due ==> due[t] == if table[t] == now && t in visited then now + Period(t.msec) else table[t])
    && (forall t :: t in table ==> (t in calls <==> t in visited && table[t] == now && t.func))
    && (forall k :: 0 <= k < |calls| ==> calls[k] in table)
    && (forall i, j :: 0 <= i < j < |calls| ==> calls[i] != calls[j])
  }

  lemma ProgressStarts(table: map<Node, nat>, now: nat, repeats: Node -> bool)
    ensures Progress(table, table, now, repeats, {}, [])
  {
  }

  lemma ProgressKeys(table: map<Node, nat>, due: map<Node, nat>, now: nat, repeats: Node -> bool, visited: set<Node>,
          calls: seq<Node>)
    requires Progress(table, due, now, repeats, visited, calls)
    ensures due.Keys <= table.Keys
  {
  }

  lemma ProgressStep(table: map<Node, nat>, before: map<Node, nat>, after: map<Node, nat>, now: nat,
          repeats: Node -> bool, visited: set<Node>, calls: seq<Node>, entry: Node)
    requires Progress(table, before, now, repeats, visited, calls)
    requires entry in before && entry !in visited
    requires after == if before[entry] != now then before
                      else if Again(entry, repeats) then before[entry := now + Period(entry.msec)]
                      else before - {entry}
    ensures Progress(table, after, now, repeats, visited + {entry},
                     if before[entry] == now && entry.func then calls + [entry] else calls)
  {
  }

  lemma NextInFront(head: Node, list: seq<Node>, front: seq<Node>, rest: seq<Node>)
    requires Ring(head, list) && |rest| > 0 && list == front + rest
    ensures Next(rest[0]) == if |rest| > 1 then rest[1] else null
    ensures list[|front|] == rest[0] && list[|front| + 1..] == rest[1..]
  {
    WalkMeetsEntries(head, list);
    assert list[|front|] == rest[0];
    if |rest| > 1 {
      assert list[|front| + 1] == rest[1];
    }
  }

  lemma OneVisited(rest: seq<Node>)
    requires |rest| > 0 && Distinct(rest)
    ensures Members(rest) - {rest[0]} == Members(rest[1..]) && rest[0] !in Members(rest[1..])
    ensures Members(rest) == {rest[0]} + Members(rest[1..])
  {
  }

  class Wheel {
    const wheel: seq<Node>
    var slot: nat
    var pulse: nat
    ghost var lists: seq<seq<Node>>
    /** Ticks so far */
    ghost var ticks: nat
    /** The armed timers and the tick at which each is due */
    ghost var due: map<Node, nat>
    ghost var laps: map<Node, nat>

    /** The invariant while a tick has still to visit the pending timers */
    ghost predicate State(pending: set<Node>)
      reads this, wheel, due.Keys, set s, k | 0 <= s < |lists| && 0 <= k < |lists[s]| :: lists[s][k]
    {
      && slot < SLOTS && |lists| == |wheel| == SLOTS
      && Timed(lists, due, laps, ticks, slot, pending)
      && Rings(wheel, lists)
      && (forall t :: t in due ==> t in laps && t.lap == laps[t])
      && pulse == ticks % 0x1_0000_0000
    }

    /** The table the wheel stands for */
    ghost function View(): Table
      reads this, due.Keys`msec, due.Keys`func
    {
      Table(ticks, map t | t in due :: Alarm(due[t], t.msec, t.func))
    }

    ghost predicate Valid()
      reads this, wheel, due.Keys, set s, k | 0 <= s < |lists| && 0 <= k < |lists[s]| :: lists[s][k]
    {
      State({})
    }

    constructor (heads: seq<Node>)
      requires |heads| == SLOTS && forall i, j :: 0 <= i < j < SLOTS ==> heads[i] != heads[j]
      requires forall s :: 0 <= s < SLOTS ==> Ring(heads[s], [])
      ensures Valid() && View() == Table(0, map[]) && wheel == heads
    {
      wheel := heads;
      slot, pulse := 0, 0;
      ticks, due, laps := 0, map[], map[];
      lists := seq(SLOTS, _ => []);
    }

    /** Puts a timer whose lap count is set into the list of slot s. */
    method Arm(tmo: Node, s: nat, ghost pending: set<Node>)
      requires State(pending) && tmo !in due && tmo !in pending && tmo !in wheel && s < SLOTS
      modifies this`lists, this`due, this`laps, Members(wheel)`next, Members(wheel)`prev, Members(wheel)`size
      modifies tmo`next, tmo`prev, tmo`head, due.Keys`prev
      ensures State(pending) && lists == old(lists)[s := [tmo] + old(lists)[s]]
      ensures due == old(due)[tmo := ticks + Remaining(tmo.lap, s, slot)]
    {
      hide Ring, Listed, Remaining;
      assert Listed(lists, due.Keys);
      NotListed(lists, due.Keys, tmo);
      TimedInsert(lists, due, laps, ticks, slot, s, tmo, tmo.lap, pending);
      lists := InsertInto(wheel, lists, s, tmo);
      due := due[tmo := ticks + Remaining(tmo.lap, s, slot)];
      laps := laps[tmo := tmo.lap];
    }

    /** Takes the timer at position k of the list of slot s out of it. */
    method Disarm(tmo: Node, ghost s: nat, ghost k: nat, ghost pending: set<Node>)
      requires State(pending) && s < SLOTS && k < |lists[s]| && lists[s][k] == tmo
      modifies this`lists, this`due, this`laps, Members(wheel)`next, Members(wheel)`prev, Members(wheel)`size
      modifies due.Keys`next, due.Keys`prev, tmo`head
      ensures State(pending - {tmo}) && due == old(due) - {tmo}
      ensures lists == old(lists)[s := old(lists)[s][..k] + old(lists)[s][k + 1..]]
      ensures tmo in old(due) && tmo !in wheel
    {
      hide Ring, Listed, Remaining, Timed, Distinct;
      TimedMembers(lists, due, laps, ticks, slot, pending);
      RingIsDistinct(wheel[s], lists[s]);
      ApartFromWheel(wheel, lists, s, k);
      hide Rings, Members;
      TimedRemove(lists, due, laps, ticks, slot, s, k, tmo, pending);
      ghost var after := RemoveFrom(wheel, lists, s, k, tmo);
      Forget(tmo, after, pending);
    }

    /** Ghost work: the timer is no longer among the armed ones. */
    ghost method Forget(tmo: Node, after: seq<seq<Node>>, pending: set<Node>)
      requires slot < SLOTS && |after| == |wheel| == SLOTS && Rings(wheel, after)
      requires Timed(after, due - {tmo}, laps - {tmo}, ticks, slot, pending - {tmo})
      requires forall t :: t in due ==> t in laps && t.lap == laps[t]
      requires pulse == ticks % 0x1_0000_0000
      modifies this`lists, this`due, this`laps
      ensures State(pending - {tmo}) && lists == after && due == old(due) - {tmo}
    {
      hide Rings, Timed;
      lists, due, laps := after, due - {tmo}, laps - {tmo};
    }

    /** bs_tmo_set: the timer must not be armed. */
    method Set(tmo: Node, msec: nat, func: bool)
      requires Valid() && tmo !in due && tmo !in wheel
      modifies this`lists, this`due, this`laps, Members(wheel)`next, Members(wheel)`prev, Members(wheel)`size
      modifies tmo`next, tmo`prev, tmo`head, tmo`lap, tmo`msec, tmo`func, due.Keys`prev
      ensures Valid() && View() == Apply(old(View()), Op.Set(tmo, msec, func))
      ensures due == old(due)[tmo := ticks + msec / 10 + 1] && tmo.msec == msec && tmo.func == func
    {
      hide State, Remaining;
      var s := Stamp(tmo, msec, func);
      Arm(tmo, s, {});
    }

    /** Writes what the timer keeps and computes its slot. */
    method Stamp(tmo: Node, msec: nat, func: bool) returns (s: nat)
      requires Valid() && tmo !in due && tmo !in wheel
      modifies tmo`lap, tmo`msec, tmo`func
      ensures Valid() && slot < SLOTS && s < SLOTS && tmo.msec == msec && tmo.func == func
      ensures Remaining(tmo.lap, s, slot) == msec / 10 + 1
    {
      hide Ring, Listed, Remaining, Timed;
      TimedMembers(lists, due, laps, ticks, slot, {});
      NotListed(lists, due.Keys, tmo);
      tmo.msec := msec;
      tmo.func := func;
      s := msec / RESOLUTION;
      tmo.lap := s / LAP_SLOTS;
      s := (slot + s + 1) % SLOTS;
      SetSlot(msec, slot);
    }

    /** bs_tmo_cancel: the timer must be armed. */
    method Cancel(tmo: Node)
      requires Valid() && tmo in due
      modifies this`lists, this`due, this`laps, Members(wheel)`next, Members(wheel)`prev, Members(wheel)`size
      modifies due.Keys`next, due.Keys`prev, tmo`head
      ensures Valid() && View() == Apply(old(View()), Op.Cancel(tmo))
      ensures due == old(due) - {tmo} && tmo !in wheel
    {
      hide Ring, Listed, Remaining;
      assert Listed(lists, due.Keys);
      ghost var s, k := FindListed(lists, due.Keys, tmo);
      Disarm(tmo, s, k, {});
      assert {} - {tmo} == {};
    }

    method Reset(tmo: Node)
      requires Valid() && tmo in due
      modifies this`lists, this`due, this`laps, Members(wheel)`next, Members(wheel)`prev, Members(wheel)`size
      modifies due.Keys`next, due.Keys`prev, tmo`head, tmo`lap, tmo`msec, tmo`func
      ensures Valid() && View() == Apply(old(View()), Op.Reset(tmo))
      ensures due == old(due)[tmo := ticks + tmo.msec / 10 + 1] && tmo.msec == old(tmo.msec)
    {
      hide State;
      Cancel(tmo);
      Set(tmo, tmo.msec, tmo.func);
    }

    method Lap(entry: Node, ghost pending: set<Node>)
      requires State(pending) && entry in due && entry.lap > 0
      requires Timed(lists, due, laps[entry := laps[entry] - 1], ticks, slot, pending - {entry})
      modifies this`laps, entry`lap
      ensures State(pending - {entry})
    {
      hide Listed, Remaining, Timed;
      entry.lap := entry.lap - 1;
      laps := laps[entry := entry.lap];
    }

    /** The part of a tick that sets a repeating timer again */
    method Rearm(entry: Node, ghost pending: set<Node>)
      requires State(pending) && entry !in due && entry !in pending && entry !in wheel
      modifies this`lists, this`due, this`laps, Members(wheel)`next, Members(wheel)`prev, Members(wheel)`size
      modifies entry`next, entry`prev, entry`head, entry`lap, due.Keys`prev
      ensures State(pending) && due == old(due)[entry := ticks + Period(entry.msec)]
      ensures entry.msec > 0 ==> 10 * ticks + entry.msec <= 10 * due[entry] < 10 * ticks + entry.msec + 10
      ensures entry.msec == 0 ==> due[entry] == ticks + 0x1_0000_0000
      ensures lists[slot] == old(lists)[slot] || lists[slot] == [entry] + old(lists)[slot]
    {
      hide Ring, Listed, Remaining, Timed;
      TimedMembers(lists, due, laps, ticks, slot, pending);
      NotListed(lists, due.Keys, entry);
      var s := entry.msec / RESOLUTION;
      if entry.msec % RESOLUTION != 0 {
        s := s + 1;
      }
      entry.lap := RepeatLap(s);
      RepeatSlot(entry.msec, slot);
      s := (slot + s) % SLOTS;
      Arm(entry, s, pending);
    }

    /** One timer of the current slot: a lap less, or the call. repeats is what the callbacks
        answer. */
    method Visit(entry: Node, repeats: Node -> bool, ghost k: nat, ghost pending: set<Node>)
        returns (called: bool, ghost front: seq<Node>)
      requires State(pending) && k < |lists[slot]| && lists[slot][k] == entry && entry in pending
      modifies this`lists, this`due, this`laps, Members(wheel)`next, Members(wheel)`prev, Members(wheel)`size
      modifies due.Keys`next, due.Keys`prev, entry`head, entry`lap
      ensures slot < SLOTS == |lists|
      ensures lists[slot] == front + old(lists[slot])[k + 1..]
      ensures entry in old(due) && called == (old(due)[entry] == ticks && entry.func)
      ensures due == if old(due)[entry] != ticks then old(due)
                     else if called && repeats(entry) then old(due)[entry := ticks + Period(entry.msec)]
                     else old(due) - {entry}
      ensures called && repeats(entry) && entry.msec > 0 ==>
        10 * ticks + entry.msec <= 10 * due[entry] < 10 * ticks + entry.msec + 10
      ensures called && repeats(entry) && entry.msec == 0 ==> due[entry] == ticks + 0x1_0000_0000
      ensures State(pending - {entry})
    {
      hide Ring, Rings, Listed, Remaining;
      ghost var l := lists[slot];
      PendingDue(lists, due, laps, ticks, slot, k, pending);
      called := false;
      if entry.lap != 0 {
        TimedLap(lists, due, laps, ticks, slot, k, pending);
        Lap(entry, pending);
        front := l[..k + 1];
      } else {
        Disarm(entry, slot, k, pending);
        front := l[..k];
        var repeat := false;
        if entry.func {
          called := true;
          repeat := repeats(entry);
        }
        if repeat {
          Rearm(entry, pending - {entry});
          if lists[slot] != l[..k] + l[k + 1..] {
            front := [entry] + front;
          }
        }
      }
    }

    /** One round of the wheel's task: every timer due at this tick is called exactly once and
        set again if its callback says so; nothing else changes. */
    method Tick(repeats: Node -> bool) returns (calls: seq<Node>)
      requires Valid()
      modifies this`slot, this`pulse, this`ticks, this`lists, this`due, this`laps
      modifies Members(wheel)`next, Members(wheel)`prev, Members(wheel)`size
      modifies due.Keys`next, due.Keys`prev, due.Keys`head, due.Keys`lap
      ensures Valid() && View() == Apply(old(View()), Op.Tick(repeats))
      ensures Members(calls) == Calls(old(View()), Op.Tick(repeats)) && Distinct(calls)
      ensures forall t :: t in old(due) && t in due && old(due)[t] == ticks && t.msec > 0 ==>
        10 * ticks + t.msec <= 10 * due[t] < 10 * ticks + t.msec + 10
      ensures forall t :: t in old(due) && t in due && old(due)[t] == ticks && t.msec == 0 ==>
        due[t] == ticks + 0x1_0000_0000
    {
      hide State, Period, Wheel.Valid;
      calls := Round(repeats);
    }

    /** The same, timer by timer */
    method Round(repeats: Node -> bool) returns (calls: seq<Node>)
      requires Valid()
      modifies this`slot, this`pulse, this`ticks, this`lists, this`due, this`laps
      modifies Members(wheel)`next, Members(wheel)`prev, Members(wheel)`size
      modifies due.Keys`next, due.Keys`prev, due.Keys`head, due.Keys`lap
      ensures Valid() && ticks == old(ticks) + 1
      ensures forall t :: t in due <==> t in old(due) && (old(due)[t] != ticks || (t.func && repeats(t)))
      ensures forall t :: t in due && old(due)[t] == ticks && t.msec > 0 ==>
        10 * ticks + t.msec <= 10 * due[t] < 10 * ticks + t.msec + 10
      ensures forall t :: t in due && old(due)[t] == ticks && t.msec == 0 ==> due[t] == ticks + 0x1_0000_0000
      ensures forall t :: t in due ==> due[t] == if old(due)[t] == ticks then ticks + Period(t.msec) else old(due)[t]
      ensures forall t :: t in old(due) ==> (t in calls <==> old(due)[t] == ticks && t.func)
      ensures forall k :: 0 <= k < |calls| ==> calls[k] in old(due)
      ensures Distinct(calls)
    {
      hide State, Progress, Ring, Rings, Touring;
      ghost var table, front: seq<Node>, visited: set<Node> := due, [], {};
      Advance();
      TourStarts(repeats);
      ghost var rest := lists[slot];
      ghost var all := Members(rest);
      calls := [];
      var entry := First(wheel[slot]);
      while entry != null
        invariant ticks == old(ticks) + 1
        invariant entry == if |rest| > 0 then rest[0] else null
        invariant all == visited + Members(rest)
        invariant Touring(front, rest, visited, table, calls, repeats)
        decreases |rest|
      {
        entry, calls, front := Tour(entry, repeats, calls, front, rest, visited, table);
        visited := visited + {rest[0]};
        rest := rest[1..];
      }
      TourEnds(front, visited, table, calls, repeats);
    }

    /** The tour of a tick along the list of the current slot: front has been visited or put
        there since, rest is still to come. */
    ghost predicate Touring(front: seq<Node>, rest: seq<Node>, visited: set<Node>, table: map<Node, nat>,
            calls: seq<Node>, repeats: Node -> bool)
      reads this, wheel, due.Keys, set s, k | 0 <= s < |lists| && 0 <= k < |lists[s]| :: lists[s][k]
      reads table.Keys`func, table.Keys`msec
    {
      && slot < SLOTS == |lists| == |wheel|
      && lists[slot] == front + rest
      && Distinct(rest)
      && visited !! Members(rest)
      && State(Members(rest))
      && Progress(table, due, ticks, repeats, visited, calls)
    }

    /** One step of the tour; the next entry is read before the visit. */
    method Tour(entry: Node, repeats: Node -> bool, calls: seq<Node>, ghost front: seq<Node>, ghost rest: seq<Node>,
                ghost visited: set<Node>, ghost table: map<Node, nat>)
      returns (next: Node?, calls': seq<Node>, ghost front': seq<Node>)
      requires |rest| > 0 && rest[0] == entry && Touring(front, rest, visited, table, calls, repeats)
      modifies this`lists, this`due, this`laps, Members(wheel)`next, Members(wheel)`prev, Members(wheel)`size
      modifies table.Keys`next, table.Keys`prev, table.Keys`head, table.Keys`lap
      ensures next == if |rest| > 1 then rest[1] else null
      ensures Touring(front', rest[1..], visited + {entry}, table, calls', repeats)
    {
      hide State, Progress, Ring, Rings;
      ghost var before := due;
      CurrentRing(Members(rest));
      NextInFront(wheel[slot], lists[slot], front, rest);
      ProgressKeys(table, due, ticks, repeats, visited, calls);
      next := Next(entry);
      var called;
      called, front' := Visit(entry, repeats, |front|, Members(rest));
      OneVisited(rest);
      ProgressStep(table, before, due, ticks, repeats, visited, calls, entry);
      calls' := if called then calls + [entry] else calls;
    }

    lemma TourStarts(repeats: Node -> bool)
      requires slot < SLOTS == |lists| && State(Members(lists[slot]))
      ensures |wheel| == SLOTS
      ensures Touring([], lists[slot], {}, due, [], repeats)
      ensures First(wheel[slot]) == if |lists[slot]| > 0 then lists[slot][0] else null
    {
      hide State, Progress, Ring, Rings;
      CurrentRing(Members(lists[slot]));
      ProgressStarts(due, ticks, repeats);
      RingIsDistinct(wheel[slot], lists[slot]);
      WalkMeetsEntries(wheel[slot], lists[slot]);
      assert [] + lists[slot] == lists[slot];
    }

    lemma TourEnds(front: seq<Node>, visited: set<Node>, table: map<Node, nat>, calls: seq<Node>, repeats: Node -> bool)
      requires Touring(front, [], visited, table, calls, repeats)
      requires forall t :: t in table && table[t] == ticks ==> t in visited
      ensures Valid()
      ensures forall t :: t in due <==> t in table && (table[t] != ticks || (t.func && repeats(t)))
      ensures forall t :: t in due ==> due[t] == if table[t] == ticks then ticks + Period(t.msec) else table[t]
      ensures forall t :: t in table ==> (t in calls <==> table[t] == ticks && t.func)
      ensures forall k :: 0 <= k < |calls| ==> calls[k] in table
      ensures forall i, j :: 0 <= i < j < |calls| ==> calls[i] != calls[j]
    {
      hide State;
      assert Members([]) == {};
    }

    lemma CurrentRing(pending: set<Node>)
      requires State(pending)
      ensures slot < SLOTS == |lists| == |wheel|
      ensures Ring(wheel[slot], lists[slot])
      ensures forall k :: 0 <= k < |lists[slot]| ==> lists[slot][k] in due
    {
      hide Remaining;
    }

    /** The pulse and the step to the next slot */
    method Advance()
      requires Valid()
      modifies this`slot, this`pulse, this`ticks
      ensures slot < SLOTS == |lists| && ticks == old(ticks) + 1
      ensures State(Members(lists[slot]))
      ensures forall t :: t in due && due[t] == ticks ==> t in lists[slot]
    {
      hide Ring, Rings, Listed, Remaining, Timed, Members;
      TimedTick(lists, due, laps, ticks, slot);
      pulse := (pulse + 1) % 0x1_0000_0000;
      ticks := ticks + 1;
      slot := slot + 1;
      if slot == SLOTS {
        slot := 0;
      }
    }
  }

  /** bs_tmo_init */
  method Init() returns (w: Wheel)
    ensures fresh(w) && w.Valid() && w.View() == Table(0, map[]) && |w.wheel| == 256
    ensures forall h :: h in w.wheel ==> fresh(h)
  {
    var heads: seq<Node> := [];
    for tx := 0 to SLOTS
      invariant |heads| == tx
      invariant forall s :: 0 <= s < tx ==> Ring(heads[s], []) && fresh(heads[s])
      invariant forall i, j :: 0 <= i < j < tx ==> heads[i] != heads[j]
    {
      var head := new Node.Head();
      heads := heads + [head];
    }
    w := new Wheel(heads);
  }
}

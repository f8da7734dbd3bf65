/** The wheel over many ticks: how long a task still waits, how it counts
    down one tick at a time, and the firing pattern that follows for a task
    rescheduled by interval (pkg/timewheel/core.go:91-153, 211-226). */
module Schedule {
  import opened Tasks
  import opened Wheel
  import Core
  import Placement
  import opened Rolling
  import opened TickFacts
  import opened Countdown

  /** Ticks a task at `position` with `circle` rotations left still waits
      when the hand is at `cur`, counting the next tick (the one that walks
      slot `cur`) as tick 0: it fires on the tick that reaches its slot with
      no rotation left. */
  function WaitTicks(n: nat, cur: nat, position: nat, circle: nat): nat
    requires cur < n && position < n
  {
    SlotsAhead(n, cur, position) + Rounds(circle, n)
  }

  /** How many slots the hand moves from `cur` to reach `position`. */
  function SlotsAhead(n: nat, cur: nat, position: nat): nat
    requires cur < n && position < n
  {
    if cur <= position then position - cur else position + n - cur
  }

  /** Ticks in `circle` full rotations. */
  function Rounds(circle: nat, n: nat): nat
  {
    if circle == 0 then 0 else Rounds(circle - 1, n) + n
  }

  lemma {:induction false} RoundsIsProduct(circle: nat, n: nat)
    ensures Rounds(circle, n) == circle * n
  {
    if circle > 0 {
      RoundsIsProduct(circle - 1, n);
      assert circle * n == (circle - 1) * n + n;
    }
  }

  /** The wait written with Go's own operators. */
  lemma WaitIsModular(n: nat, cur: nat, position: nat, circle: nat)
    requires cur < n && position < n
    ensures WaitTicks(n, cur, position, circle) == (position - cur) % n + circle * n
  {
    Placement.ModNear(position - cur, n);
    RoundsIsProduct(circle, n);
  }

  function Wait(w: TimeWheel, t: Task): nat
    requires Valid(w) && t.position < w.slotNums
  {
    WaitTicks(w.slotNums, w.currentPosition, t.position, t.circle)
  }

  /** Ticks per period of a task on this wheel. */
  function Period(w: TimeWheel, t: Task): nat
    requires Valid(w)
  {
    Placement.Ticks(w.interval, t.executeCycle)
  }

  /** `u` is the same task as `t` up to its place on the wheel and its
      remaining repeat count. */
  predicate SameTask(t: Task, u: Task)
  {
    u.key == t.key && u.executeCycle == t.executeCycle && u.job == t.job
  }

  /** A task in another slot comes one tick closer as the hand moves. */
  lemma WaitOtherSlot(n: nat, cur: nat, p: nat, c: nat)
    requires cur < n && p < n && p != cur
    ensures WaitTicks(n, cur, p, c) > 0
    ensures WaitTicks(n, (cur + 1) % n, p, c) == WaitTicks(n, cur, p, c) - 1
  {
    Placement.ModNear(cur + 1, n);
  }

  /** A task in the slot being walked waits whole rotations; losing one
      brings it one tick closer as the hand moves. */
  lemma WaitSameSlot(n: nat, cur: nat, c: nat)
    requires cur < n
    ensures WaitTicks(n, cur, cur, c) == 0 <==> c == 0
    ensures c > 0 ==> WaitTicks(n, (cur + 1) % n, cur, c - 1) == WaitTicks(n, cur, cur, c) - 1
  {
    Placement.ModNear(cur + 1, n);
  }

  /** A task due a given number of ticks from the slot being walked waits
      one tick less once the hand has moved on. */
  lemma WaitFromDue(n: nat, cur: nat, p: nat, c: nat)
    requires cur < n && p < n
    ensures WaitTicks(n, (cur + 1) % n, p, c) == Placement.DueTick(n, cur, p, c) - 1
  {
    Placement.ModNear(cur + 1, n);
    Placement.ModNear(p - cur - 1, n);
    RoundsIsProduct(c, n);
  }

  /** Interval placement from slot `cur` with a period that is not a whole
      number of rotations never lands on `cur` itself. */
  lemma ElsewhereThanCurrent(cur: nat, n: nat, interval: nat, cycleSecs: nat)
    requires n >= 1 && interval >= 1 && cur < n
    requires Placement.Ticks(interval, cycleSecs) % n != 0
    ensures Placement.ByInterval(cur, n, interval, cycleSecs).position != cur
  {
    var c := Placement.Ticks(interval, cycleSecs);
    Placement.ModOfSum(cur, c / n, c % n, n);
    assert cur + c / n * n + c % n == cur + c;
    Placement.ModNear(cur + c % n, n);
  }

  /** One tick for a task that is not yet due and sits in another slot: it
      is untouched, comes one tick closer, and does not fire. */
  lemma TickWaitingElsewhere(w: TimeWheel, fuel: nat, k: Key)
    requires Valid(w) && k in w.taskRecords && Tick(w, fuel).Ticked?
    requires TaskOf(w, k).position != w.currentPosition
    ensures var t, r := TaskOf(w, k), Tick(w, fuel).wheel;
            && k in r.taskRecords && TaskOf(r, k) == t
            && Wait(w, t) > 0 && Wait(r, t) == Wait(w, t) - 1
            && FiringsOf(Tick(w, fuel).fired, k) == []
  {
    var t := TaskOf(w, k);
    TickLeavesOtherSlots(w, fuel, k);
    WaitOtherSlot(w.slotNums, w.currentPosition, t.position, t.circle);
  }

  /** A task in the slot being walked that still has rotations to wait
      comes one tick closer once the hand has moved on and it has lost a
      rotation. */
  lemma WaitAfterPass(w: TimeWheel, r: TimeWheel, t: Task, t': Task)
    requires Valid(w) && Valid(r) && r.slotNums == w.slotNums
    requires r.currentPosition == (w.currentPosition + 1) % w.slotNums
    requires t.position == w.currentPosition && t.circle > 0 && t' == t.(circle := t.circle - 1)
    ensures Wait(w, t) > 0 && Wait(r, t') == Wait(w, t) - 1
  {
    WaitSameSlot(w.slotNums, w.currentPosition, t.circle);
  }

  /** One tick for a task that is not yet due and sits in the slot being
      walked: it loses a rotation, stays, comes one tick closer, and does
      not fire. */
  lemma TickWaitingHere(w: TimeWheel, fuel: nat, k: Key)
    requires Valid(w) && k in w.taskRecords && w.taskRecords[k] == w.currentPosition
    requires TaskOf(w, k).circle > 0 && Tick(w, fuel).Ticked?
    ensures var t, r := TaskOf(w, k), Tick(w, fuel).wheel;
            && k in r.taskRecords && TaskOf(r, k) == t.(circle := t.circle - 1)
            && Wait(w, t) > 0 && Wait(r, TaskOf(r, k)) == Wait(w, t) - 1
            && FiringsOf(Tick(w, fuel).fired, k) == []
  {
    TickPassesWaiting(w, fuel, k);
    PassedHere(w, Tick(w, fuel).wheel, Tick(w, fuel).fired, k);
  }

  /** The wheel-level reading of a pass over a waiting task, with the tick
      itself out of the picture. */
  lemma PassedHere(w: TimeWheel, r: TimeWheel, fired: seq<Firing>, k: Key)
    requires Valid(w) && Valid(r) && r.slotNums == w.slotNums
    requires r.currentPosition == (w.currentPosition + 1) % w.slotNums
    requires k in w.taskRecords && TaskOf(w, k).position == w.currentPosition && TaskOf(w, k).circle > 0
    requires k in r.taskRecords && TaskOf(r, k) == TaskOf(w, k).(circle := TaskOf(w, k).circle - 1)
    requires FiringsOf(fired, k) == []
    ensures var t := TaskOf(w, k);
            && k in r.taskRecords && TaskOf(r, k) == t.(circle := t.circle - 1)
            && Wait(w, t) > 0 && Wait(r, TaskOf(r, k)) == Wait(w, t) - 1
            && FiringsOf(fired, k) == []
  {
    WaitAfterPass(w, r, TaskOf(w, k), TaskOf(r, k));
  }

  /** One tick for a due task that has no repeat left, or whose period is
      at least one tick and not a whole number of rotations: it fires once
      with the job it carries (else the wheel's), then is dropped if it had
      no repeat left, or waits one period less the tick just spent, with one
      repeat fewer. */
  lemma TickDue(w: TimeWheel, fuel: nat, k: Key)
    requires Valid(w) && k in w.taskRecords && Tick(w, fuel).Ticked?
    requires Wait(w, TaskOf(w, k)) == 0
    requires TaskOf(w, k).times == 0
             || (Period(w, TaskOf(w, k)) >= 1 && Period(w, TaskOf(w, k)) % w.slotNums != 0)
    ensures var t, r := TaskOf(w, k), Tick(w, fuel).wheel;
            && FiringsOf(Tick(w, fuel).fired, k) == [Firing(k, Dispatch(t.job, w.job))]
            && (t.times == 0 ==> k !in r.taskRecords)
            && (t.times != 0 ==>
                  && k in r.taskRecords && SameTask(t, TaskOf(r, k))
                  && TaskOf(r, k).times == TimesAfter(t.times)
                  && Wait(r, TaskOf(r, k)) == Period(w, t) - 1)
  {
    var t := TaskOf(w, k);
    var n, cur := w.slotNums, w.currentPosition;
    if t.position != cur {
      WaitOtherSlot(n, cur, t.position, t.circle);
    }
    if t.circle > 0 {
      WaitSameSlot(n, cur, t.circle);
    }
    if t.times != 0 {
      ElsewhereThanCurrent(cur, n, w.interval, t.executeCycle);
    }
    TickHandlesCurrentSlot(w, fuel, k);
    if t.times != 0 {
      var q := Target(w, Reschedule(t).value);
      Placement.ByIntervalDue(cur, n, w.interval, t.executeCycle);
      WaitFromDue(n, cur, q.position, q.circle);
    }
  }

  /** One step of the hand followed by `m - 1` more is `m` steps. */
  lemma AdvanceMod(cur: nat, m: nat, n: nat)
    requires n >= 1 && cur < n && m >= 1
    ensures ((cur + 1) % n + (m - 1)) % n == (cur + m) % n
  {
    Placement.ModNear(cur + 1, n);
    if cur + 1 == n {
      Placement.ModOfSum(m - 1, 1, 0, n);
    }
  }

  /** Running the wheel for a number of ticks, each walk with the same
      fuel; `logs[j]` is what tick `j` fired. */
  datatype RunResult = Ran(wheel: TimeWheel, logs: seq<seq<Firing>>) | Stalled

  function Run(w: TimeWheel, m: nat, fuel: nat): (r: RunResult)
    requires Valid(w)
    ensures r.Ran? ==> && Valid(r.wheel) && |r.logs| == m
                       && r.wheel.interval == w.interval && r.wheel.slotNums == w.slotNums
                       && r.wheel.job == w.job
    decreases m
  {
    if m == 0 then Ran(w, [])
    else
      match Tick(w, fuel)
      case Diverged => Stalled
      case Ticked(w', fired) =>
        match Run(w', m - 1, fuel)
        case Stalled => Stalled
        case Ran(end, logs) => Ran(end, [fired] + logs)
  }

  /** What a run is made of: the first tick, then the rest of the run. */
  lemma RunStep(w: TimeWheel, m: nat, fuel: nat)
    requires Valid(w) && m > 0 && Run(w, m, fuel).Ran?
    ensures Tick(w, fuel).Ticked? && Run(Tick(w, fuel).wheel, m - 1, fuel).Ran?
    ensures Run(w, m, fuel).wheel == Run(Tick(w, fuel).wheel, m - 1, fuel).wheel
    ensures Run(w, m, fuel).logs == [Tick(w, fuel).fired] + Run(Tick(w, fuel).wheel, m - 1, fuel).logs
  {
  }

  /** Each tick of a run moves the hand one slot, wrapping around. */
  lemma {:induction false} RunMovesHand(w: TimeWheel, m: nat, fuel: nat)
    requires Valid(w) && Run(w, m, fuel).Ran?
    ensures Run(w, m, fuel).wheel.currentPosition == (w.currentPosition + m) % w.slotNums
    decreases m
  {
    if m == 0 {
      Placement.ModNear(w.currentPosition, w.slotNums);
    } else {
      RunStep(w, m, fuel);
      RunMovesHand(Tick(w, fuel).wheel, m - 1, fuel);
      AdvanceMod(w.currentPosition, m, w.slotNums);
    }
  }

  /** After `slotNums` ticks the hand is back where it started. */
  lemma FullRotation(w: TimeWheel, fuel: nat)
    requires Valid(w) && Run(w, w.slotNums, fuel).Ran?
    ensures Run(w, w.slotNums, fuel).wheel.currentPosition == w.currentPosition
  {
    RunMovesHand(w, w.slotNums, fuel);
    Placement.ModOfSum(w.currentPosition, 1, 0, w.slotNums);
    Placement.ModNear(w.currentPosition, w.slotNums);
  }

  /** A key the wheel does not hold never fires and never appears. */
  lemma {:induction false} RunIgnoresUnknownKey(w: TimeWheel, m: nat, fuel: nat, k: Key)
    requires Valid(w) && k !in w.taskRecords && Run(w, m, fuel).Ran?
    ensures k !in Run(w, m, fuel).wheel.taskRecords
    ensures forall j :: 0 <= j < m ==> FiringsOf(Run(w, m, fuel).logs[j], k) == []
    decreases m
  {
    if m == 0 {
    } else {
      RunStep(w, m, fuel);
      var w' := Tick(w, fuel).wheel;
      TickIgnoresUnknownKey(w, fuel, k);
      RunIgnoresUnknownKey(w', m - 1, fuel, k);
      var logs, rest := Run(w, m, fuel).logs, Run(w', m - 1, fuel).logs;
      forall j | 0 <= j < m ensures FiringsOf(logs[j], k) == [] {
        if j > 0 {
          assert logs[j] == rest[j - 1];
        }
      }
    }
  }

  /** Once a task is removed it never fires again, however long the wheel
      runs. */
  lemma RemovedNeverFires(w: TimeWheel, k: Key, m: nat, fuel: nat)
    requires Valid(w) && Core.RemoveTask(w, Some(k)).Ok?
    requires Run(Core.RemoveTask(w, Some(k)).value, m, fuel).Ran?
    ensures forall j :: 0 <= j < m ==> FiringsOf(Run(Core.RemoveTask(w, Some(k)).value, m, fuel).logs[j], k) == []
  {
    RunIgnoresUnknownKey(Core.RemoveTask(w, Some(k)).value, m, fuel, k);
  }

  /** Where key `k` stands in its countdown. */
  function StateOf(w: TimeWheel, k: Key): KeyState
    requires Valid(w)
  {
    if k in w.taskRecords then Pending(Wait(w, TaskOf(w, k)), TaskOf(w, k).times) else Gone
  }

  /** Key `k`, while held, is a task with this period and job. */
  predicate Keeps(w: TimeWheel, k: Key, cycleSecs: nat, job: Option<Job>)
    requires Valid(w)
  {
    k in w.taskRecords ==> TaskOf(w, k).executeCycle == cycleSecs && TaskOf(w, k).job == job
  }

  /** A period the countdown describes: at least one tick, and not a whole
      number of rotations, so a rescheduled task never lands back in the
      slot being walked. */
  predicate Countable(w: TimeWheel, cycleSecs: nat)
    requires Valid(w)
  {
    Placement.Ticks(w.interval, cycleSecs) >= 1 && Placement.Ticks(w.interval, cycleSecs) % w.slotNums != 0
  }

  /** One tick moves key `k` one step along its countdown and fires it, with
      its own job or else the wheel's, exactly when it was due. */
  lemma TickStep(w: TimeWheel, fuel: nat, k: Key, cycleSecs: nat, job: Option<Job>)
    requires Valid(w) && Tick(w, fuel).Ticked?
    requires Keeps(w, k, cycleSecs, job) && Countable(w, cycleSecs)
    ensures Keeps(Tick(w, fuel).wheel, k, cycleSecs, job)
    ensures StateOf(Tick(w, fuel).wheel, k) == Next(StateOf(w, k), Placement.Ticks(w.interval, cycleSecs))
    ensures FiringsOf(Tick(w, fuel).fired, k)
              == if Due(StateOf(w, k)) then [Firing(k, Dispatch(job, w.job))] else []
  {
    if k !in w.taskRecords {
      TickIgnoresUnknownKey(w, fuel, k);
    } else if TaskOf(w, k).position != w.currentPosition {
      TickWaitingElsewhere(w, fuel, k);
    } else if TaskOf(w, k).circle > 0 {
      TickWaitingHere(w, fuel, k);
    } else {
      WaitSameSlot(w.slotNums, w.currentPosition, 0);
      TickDue(w, fuel, k);
    }
  }

  /** Over a run, key `k` ends where its countdown says. */
  lemma {:induction false} RunEndsAsCounted(w: TimeWheel, m: nat, fuel: nat, k: Key,
                                             cycleSecs: nat, job: Option<Job>)
    requires Valid(w) && Run(w, m, fuel).Ran?
    requires Keeps(w, k, cycleSecs, job) && Countable(w, cycleSecs)
    ensures StateOf(Run(w, m, fuel).wheel, k) == After(StateOf(w, k), Placement.Ticks(w.interval, cycleSecs), m)
    decreases m
  {
    if m == 0 {
    } else {
      RunStep(w, m, fuel);
      TickStep(w, fuel, k, cycleSecs, job);
      RunEndsAsCounted(Tick(w, fuel).wheel, m - 1, fuel, k, cycleSecs, job);
    }
  }

  /** Over a run, key `k` fires on exactly the ticks its countdown is due,
      each time once, with its own job or else the wheel's. */
  lemma {:induction false} RunFiresWhenDue(w: TimeWheel, m: nat, fuel: nat, k: Key,
                                            cycleSecs: nat, job: Option<Job>)
    requires Valid(w) && Run(w, m, fuel).Ran?
    requires Keeps(w, k, cycleSecs, job) && Countable(w, cycleSecs)
    ensures forall j :: 0 <= j < m ==>
              FiringsOf(Run(w, m, fuel).logs[j], k)
                == if Due(After(StateOf(w, k), Placement.Ticks(w.interval, cycleSecs), j))
                   then [Firing(k, Dispatch(job, w.job))] else []
    decreases m
  {
    if m == 0 {
    } else {
      RunStep(w, m, fuel);
      var w' := Tick(w, fuel).wheel;
      TickStep(w, fuel, k, cycleSecs, job);
      RunFiresWhenDue(w', m - 1, fuel, k, cycleSecs, job);
      var logs, rest := Run(w, m, fuel).logs, Run(w', m - 1, fuel).logs;
      forall j | 0 <= j < m
        ensures FiringsOf(logs[j], k)
                  == if Due(After(StateOf(w, k), Placement.Ticks(w.interval, cycleSecs), j))
                     then [Firing(k, Dispatch(job, w.job))] else []
      {
        if j > 0 {
          assert logs[j] == rest[j - 1];
        }
      }
    }
  }

  /** Over a run, key `k` fires as many times as its countdown is due. */
  lemma {:induction false} RunCountsFirings(w: TimeWheel, m: nat, fuel: nat, k: Key,
                                             cycleSecs: nat, job: Option<Job>)
    requires Valid(w) && Run(w, m, fuel).Ran?
    requires Keeps(w, k, cycleSecs, job) && Countable(w, cycleSecs)
    ensures CountFirings(Run(w, m, fuel).logs, k) == Fired(StateOf(w, k), Placement.Ticks(w.interval, cycleSecs), m)
    decreases m
  {
    if m == 0 {
    } else {
      RunStep(w, m, fuel);
      var w' := Tick(w, fuel).wheel;
      TickStep(w, fuel, k, cycleSecs, job);
      RunCountsFirings(w', m - 1, fuel, k, cycleSecs, job);
      assert Run(w, m, fuel).logs[1..] == Run(w', m - 1, fuel).logs;
    }
  }

  /** Total firings of `k` over a run. */
  function CountFirings(logs: seq<seq<Firing>>, k: Key): nat
  {
    if logs == [] then 0 else |FiringsOf(logs[0], k)| + CountFirings(logs[1..], k)
  }

  /** The firing pattern of a task whose period is at least one tick and not
      a whole number of rotations (in particular any period shorter than a
      rotation): it fires on tick `Wait`, then every period, as many more
      times as its repeat count says, always with its own job or else the
      wheel's, and on no other tick. */
  lemma Periodic(w: TimeWheel, m: nat, fuel: nat, k: Key)
    requires Valid(w) && k in w.taskRecords && Run(w, m, fuel).Ran?
    requires Countable(w, TaskOf(w, k).executeCycle)
    ensures var t := TaskOf(w, k);
            forall j :: 0 <= j < m ==>
              FiringsOf(Run(w, m, fuel).logs[j], k)
                == if FiresOnTick(Wait(w, t), Period(w, t), t.times, j)
                   then [Firing(k, Dispatch(t.job, w.job))] else []
  {
    var t := TaskOf(w, k);
    RunFiresWhenDue(w, m, fuel, k, t.executeCycle, t.job);
    forall j | 0 <= j < m
      ensures Due(After(StateOf(w, k), Period(w, t), j)) == FiresOnTick(Wait(w, t), Period(w, t), t.times, j)
    {
      DueExactlyOnPattern(StateOf(w, k), Period(w, t), j);
    }
  }

  /** A task with a repeat count `N >= 0` and a period the countdown
      describes fires exactly `N + 1` times in all, and is gone, once the
      wheel has run past its last due tick. */
  lemma FiresExactly(w: TimeWheel, m: nat, fuel: nat, k: Key)
    requires Valid(w) && k in w.taskRecords && Run(w, m, fuel).Ran?
    requires Countable(w, TaskOf(w, k).executeCycle) && TaskOf(w, k).times >= 0
    requires m > Wait(w, TaskOf(w, k)) + TaskOf(w, k).times * Period(w, TaskOf(w, k))
    ensures CountFirings(Run(w, m, fuel).logs, k) == TaskOf(w, k).times + 1
    ensures k !in Run(w, m, fuel).wheel.taskRecords
  {
    var t := TaskOf(w, k);
    RunEndsAsCounted(w, m, fuel, k, t.executeCycle, t.job);
    RunCountsFirings(w, m, fuel, k, t.executeCycle, t.job);
    FiresRepeatsPlusOne(Wait(w, t), t.times, Period(w, t), m);
  }
}

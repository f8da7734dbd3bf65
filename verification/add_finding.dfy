/** Where a newly added task first runs (pkg/timewheel/core.go:229-244).
    A tick walks slot `currentPosition` and only then moves the hand
    (core.go:91-153), so between ticks the current slot is the one the next
    tick walks, not one already walked. Created-time placement is made
    between ticks, yet it counts rotations from the whole period and then
    applies the settle step meant for a placement made during a walk. The
    first run is `offset` ticks away, where `offset` is what is left of the
    period; the placement as written misses that count. */
module AddFinding {
  import opened Tasks
  import opened Wheel
  import Core
  import Placement
  import Schedule

  /** The ticks from now to the first run of a task created `passedSecs`
      seconds ago: the rest of the period in progress. */
  function FirstOffset(interval: nat, cycleSecs: nat, passedSecs: int): nat
    requires interval >= 1 && cycleSecs >= 1
  {
    Placement.Ticks(interval, cycleSecs - Placement.GoRem(passedSecs, cycleSecs))
  }

  /** Created-time placement as evidently intended: `offset` slots ahead of
      the next slot walked, rotations counted from `offset` itself, with no
      settle step. The next tick (tick 0) walks slot `cur`. */
  function FirstPlacement(cur: nat, slotNums: nat, interval: nat, cycleSecs: nat, passedSecs: int): (p: Placement.Placement)
    requires slotNums >= 1 && interval >= 1 && cur < slotNums && cycleSecs >= 1
    ensures 0 <= p.position < slotNums && 0 <= p.circle
    ensures Schedule.WaitTicks(slotNums, cur, p.position, p.circle) == FirstOffset(interval, cycleSecs, passedSecs)
  {
    var offset := FirstOffset(interval, cycleSecs, passedSecs);
    var q, m := offset / slotNums, offset % slotNums;
    assert offset == q * slotNums + m;
    Spot(cur, slotNums, q, m);
    assert cur + offset == cur + q * slotNums + m;
    Placement.Placement((cur + offset) % slotNums, q)
  }

  /** The slot `q` rotations and `m` slots ahead of `cur` is waited for
      `m + q * slotNums` ticks. */
  lemma Spot(cur: nat, slotNums: nat, q: nat, m: nat)
    requires slotNums >= 1 && cur < slotNums && m < slotNums
    ensures 0 <= (cur + q * slotNums + m) % slotNums == (cur + m) % slotNums
    ensures Schedule.SlotsAhead(slotNums, cur, (cur + m) % slotNums) == m
    ensures Schedule.WaitTicks(slotNums, cur, (cur + m) % slotNums, q) == m + q * slotNums
  {
    Placement.ModOfSum(cur, q, m, slotNums);
    Placement.ModNear(cur + m, slotNums);
    Schedule.RoundsIsProduct(q, slotNums);
  }

  /** As written, a task due a whole number of periods after its creation
      and whose period is a whole number of rotations lands on the slot the
      next tick walks, one rotation short: it runs one rotation early, on the
      very next tick when the period is one rotation. */
  lemma CreatedTimeRunsRotationEarly(cur: nat, slotNums: nat, interval: nat, cycleSecs: nat, passedSecs: int)
    requires slotNums >= 1 && interval >= 1 && cur < slotNums && cycleSecs >= 1
    requires passedSecs % cycleSecs == 0
    requires Placement.Ticks(interval, cycleSecs) >= 1 && Placement.Ticks(interval, cycleSecs) % slotNums == 0
    ensures var p := Placement.ByCreatedTime(cur, slotNums, interval, cycleSecs, passedSecs);
            && p.position == cur
            && Schedule.WaitTicks(slotNums, cur, p.position, p.circle) + slotNums
               == FirstOffset(interval, cycleSecs, passedSecs)
  {
    var n, ticks := slotNums, Placement.Ticks(interval, cycleSecs);
    Placement.ByCreatedTimeAligned(cur, n, interval, cycleSecs, passedSecs);
    assert FirstOffset(interval, cycleSecs, passedSecs) == ticks;
    var q := ticks / n;
    assert ticks == q * n + 0;
    Spot(cur, n, q, 0);
    assert q >= 1;
    Spot(cur, n, q - 1, 0);
    assert (q - 1) * n == q * n - n;
  }

  /** As written, a task created part-way through a period longer than a
      rotation waits the rotations of a whole period on top of the part left:
      on 60 one-second slots, a 120 s task created 30 s ago runs after 150
      ticks, not 90. */
  lemma CreatedTimeRunsLate()
    ensures var p := Placement.ByCreatedTime(0, 60, 1, 120, 30);
            && FirstOffset(1, 120, 30) == 90
            && Schedule.WaitTicks(60, 0, p.position, p.circle) == 150
  {
    Schedule.RoundsIsProduct(2, 60);
  }

  /** End to end: a 60 s task added, the moment it is created, to a wheel
      of 60 one-second slots (a fresh one, say) sits in the slot the next
      tick walks with no rotation to wait, so it runs on that very tick
      instead of 60 ticks later. */
  lemma AddedMinuteTaskRunsAtOnce(w: TimeWheel, key: Key, times: int, job: Option<Job>)
    requires Valid(w) && w.interval == 1 && w.slotNums == 60 && key !in w.taskRecords
    ensures var r := Core.AddTask(w, 60, Some(key), 0, times, job);
            && r.Ok?
            && TaskOf(r.value, key).position == r.value.currentPosition
            && TaskOf(r.value, key).circle == 0
            && Schedule.Wait(r.value, TaskOf(r.value, key)) == 0
            && FirstOffset(1, 60, 0) == 60
  {
    var r := Core.AddTask(w, 60, Some(key), 0, times, job);
    var p := Placement.ByCreatedTime(w.currentPosition, 60, 1, 60, 0);
    CreatedTimeRunsRotationEarly(w.currentPosition, 60, 1, 60, 0);
    assert TaskOf(r.value, key) == Task(key, 60, p.position, p.circle, times, job);
    Schedule.RoundsIsProduct(p.circle, 60);
  }

  /** The corrected placement keeps the source's placement wherever the two
      count alike: a task due a whole number of periods after its creation
      whose period is not a whole number of rotations. */
  lemma FirstPlacementAgrees(cur: nat, slotNums: nat, interval: nat, cycleSecs: nat, passedSecs: int)
    requires slotNums >= 1 && interval >= 1 && cur < slotNums && cycleSecs >= 1
    requires passedSecs % cycleSecs == 0
    requires Placement.Ticks(interval, cycleSecs) % slotNums != 0
    ensures FirstPlacement(cur, slotNums, interval, cycleSecs, passedSecs)
            == Placement.ByCreatedTime(cur, slotNums, interval, cycleSecs, passedSecs)
  {
    var n, ticks := slotNums, Placement.Ticks(interval, cycleSecs);
    Placement.ByCreatedTimeAligned(cur, n, interval, cycleSecs, passedSecs);
    assert FirstOffset(interval, cycleSecs, passedSecs) == ticks;
    var q, m := ticks / n, ticks % n;
    assert ticks == q * n + m;
    Spot(cur, n, q, m);
    Placement.ModNear(cur + m, n);
    assert (cur + ticks) % n != cur;
  }
}

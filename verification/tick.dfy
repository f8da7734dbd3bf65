/** One tick of the wheel (pkg/timewheel/core.go:90-153): walk the slot at
    the current position, count down waiting tasks, fire due ones and
    reschedule those with repeats left, then move to the next slot.

    The walk is a cursor over a list that can grow while it is walked: the
    cursor's successor is taken before a fired task is removed and
    reinserted, so a task rescheduled into the slot being walked is appended
    behind the cursor and is visited again in the same tick, unless it was
    the last element. Such a walk need not end, so `fuel` bounds how many
    times a reinsertion may extend the walk of one slot; running out of it
    stands for a tick that never finishes. */
module Rolling {
  import opened Tasks
  import opened Wheel
  import Core
  import Placement

  /** What a firing leaves to reinsert (pkg/timewheel/core.go:133-143): no
      repeat left ends the task; a negative count repeats forever unchanged;
      a positive count is used up by one. */
  function Reschedule(t: Task): (r: Option<Task>)
    ensures r.None? <==> t.times == 0
    ensures r.Some? ==> r.value.key == t.key && r.value.executeCycle == t.executeCycle
                        && r.value.job == t.job
    ensures r.Some? && t.times < 0 ==> r.value.times == t.times
    ensures r.Some? ==> r.value == t.(times := r.value.times)
    ensures r.Some? && t.times > 0 ==> r.value.times == t.times - 1
  {
    if t.times == 0 then None
    else if t.times < 0 then Some(t)
    else Some(t.(times := t.times - 1))
  }

  datatype Scan = Done(wheel: TimeWheel, fired: seq<Firing>) | OutOfFuel

  /** Where a rescheduled task goes: interval placement from the slot being
      walked. */
  function Target(w: TimeWheel, t: Task): (p: Placement.Placement)
    requires Valid(w)
    ensures 0 <= p.position < w.slotNums && 0 <= p.circle
  {
    Placement.ByInterval(w.currentPosition, w.slotNums, w.interval, t.executeCycle)
  }

  /** The outcome of visiting the element under the cursor: the walk ends,
      goes on from a cursor over a new wheel, or has used up its fuel. */
  datatype Visit =
    | Stop(wheel: TimeWheel, fired: seq<Firing>)
    | Continue(wheel: TimeWheel, cursor: nat, fuel: nat, fired: seq<Firing>)
    | Stuck

  /** Puts back what a firing leaves, by interval placement; nothing when
      the task is finished. */
  function Requeue(w: TimeWheel, next: Option<Task>): (r: TimeWheel)
    requires Valid(w) && (next.Some? ==> next.value.key !in w.taskRecords)
    ensures Valid(r)
    ensures r.interval == w.interval && r.slotNums == w.slotNums
    ensures r.currentPosition == w.currentPosition && r.job == w.job
  {
    match next
    case None => w
    case Some(t) => Core.PlaceTask(w, t, Core.ByInterval)
  }

  /** Whether a rescheduled task lands back in the slot being walked. */
  predicate BackInCurrentSlot(w: TimeWheel, next: Option<Task>)
    requires Valid(w)
  {
    next.Some? && Target(w, next.value).position == w.currentPosition
  }

  /** One iteration of the walk's loop body (pkg/timewheel/core.go:97-143). */
  function VisitAt(w: TimeWheel, i: nat, fuel: nat): (v: Visit)
    requires Valid(w) && i < |w.slots[w.currentPosition]|
    ensures !v.Stuck? ==> && Valid(v.wheel)
                          && v.wheel.interval == w.interval && v.wheel.slotNums == w.slotNums
                          && v.wheel.currentPosition == w.currentPosition && v.wheel.job == w.job
    ensures v.Continue? ==> && v.cursor <= |v.wheel.slots[w.currentPosition]|
                            && (v.fuel < fuel
                                || (v.fuel == fuel && |v.wheel.slots[w.currentPosition]| - v.cursor
                                                      < |w.slots[w.currentPosition]| - i))
  {
    var cur := w.currentPosition;
    if w.slots[cur][i].circle > 0 then Continue(DecrementAt(w, cur, i), i + 1, fuel, [])
    else FireAt(w, i, fuel)
  }

  /** A due task under the cursor: dispatch its job, take it out of the slot
      and the index, put back what Reschedule leaves, and go on from the
      successor saved before the removal; the walk ends when there was none
      (pkg/timewheel/core.go:112-143). */
  function FireAt(w: TimeWheel, i: nat, fuel: nat): (v: Visit)
    requires Valid(w) && i < |w.slots[w.currentPosition]| && w.slots[w.currentPosition][i].circle == 0
    ensures !v.Stuck? ==> && v.fired == [Firing(w.slots[w.currentPosition][i].key,
                                                Dispatch(w.slots[w.currentPosition][i].job, w.job))]
                          && v.wheel == Requeue(RemoveAt(w, w.currentPosition, i),
                                                Reschedule(w.slots[w.currentPosition][i]))
    ensures v.Stop? <==> i + 1 == |w.slots[w.currentPosition]|
    ensures v.Continue? ==> v.cursor == i
    ensures v.Continue? ==> && v.cursor <= |v.wheel.slots[w.currentPosition]|
                            && (v.fuel < fuel
                                || (v.fuel == fuel && |v.wheel.slots[w.currentPosition]| - v.cursor
                                                      < |w.slots[w.currentPosition]| - i))
  {
    var cur := w.currentPosition;
    var s := w.slots[cur];
    var t := s[i];
    var f := Firing(t.key, Dispatch(t.job, w.job));
    var removed := RemoveAt(w, cur, i);
    var next := Requeue(removed, Reschedule(t));
    assert |next.slots[cur]| == |s| - 1 + (if BackInCurrentSlot(removed, Reschedule(t)) then 1 else 0);
    if i + 1 == |s| then Stop(next, [f])
    else if BackInCurrentSlot(removed, Reschedule(t)) then
      if fuel == 0 then Stuck else Continue(next, i, fuel - 1, [f])
    else Continue(next, i, fuel, [f])
  }

  /** The firing a due task leaves in the log names the job that ran: the
      task's own when it has one, else the wheel's, else none. */
  lemma FireAtRunsJob(w: TimeWheel, i: nat, fuel: nat)
    requires Valid(w) && i < |w.slots[w.currentPosition]| && w.slots[w.currentPosition][i].circle == 0
    requires !FireAt(w, i, fuel).Stuck?
    ensures var t, fired := w.slots[w.currentPosition][i], FireAt(w, i, fuel).fired;
            && |fired| == 1 && fired[0].key == t.key
            && (t.job.Some? ==> fired[0].dispatched == RanTaskJob(t.job.value))
            && (t.job.None? && w.job.Some? ==> fired[0].dispatched == RanWheelJob(w.job.value))
            && (t.job.None? && w.job.None? ==> fired[0].dispatched == NoJob)
  {
  }

  /** The walk of the current slot from cursor `i`. */
  function ScanSlot(w: TimeWheel, i: nat, fuel: nat): (r: Scan)
    requires Valid(w) && i <= |w.slots[w.currentPosition]|
    ensures r.Done? ==> && Valid(r.wheel)
                        && r.wheel.interval == w.interval && r.wheel.slotNums == w.slotNums
                        && r.wheel.currentPosition == w.currentPosition && r.wheel.job == w.job
    decreases fuel, |w.slots[w.currentPosition]| - i
  {
    if i == |w.slots[w.currentPosition]| then Done(w, [])
    else
      match VisitAt(w, i, fuel)
      case Stop(w', fired) => Done(w', fired)
      case Stuck => OutOfFuel
      case Continue(w', i', fuel', fired) =>
        var rest := ScanSlot(w', i', fuel');
        if rest.Done? then Done(rest.wheel, fired + rest.fired) else OutOfFuel
  }

  datatype TickResult = Ticked(wheel: TimeWheel, fired: seq<Firing>) | Diverged

  /** The position after the current one, wrapping to 0 after the last slot. */
  function NextPosition(w: TimeWheel): (p: nat)
    requires Valid(w)
    ensures p < w.slotNums
    ensures p == (w.currentPosition + 1) % w.slotNums
  {
    Placement.ModNear(w.currentPosition + 1, w.slotNums);
    if w.currentPosition == w.slotNums - 1 then 0 else w.currentPosition + 1
  }

  /** rollAndRunTask: walk the current slot, then advance one position. */
  function Tick(w: TimeWheel, fuel: nat): (r: TickResult)
    requires Valid(w)
    ensures r.Ticked? ==> && Valid(r.wheel)
                          && r.wheel.interval == w.interval && r.wheel.slotNums == w.slotNums
                          && r.wheel.job == w.job
                          && r.wheel.currentPosition == (w.currentPosition + 1) % w.slotNums
  {
    match ScanSlot(w, 0, fuel)
    case OutOfFuel => Diverged
    case Done(w', fired) => Ticked(w'.(currentPosition := NextPosition(w)), fired)
  }
}

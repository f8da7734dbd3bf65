/** The wheel's constructor and its add and remove transitions
    (pkg/timewheel/core.go:22-50, 166-208, 246-276). Each `select` branch of
    the control loop is taken here as one sequential step on an immutable
    wheel; the request channels and the caller-side race between the
    duplicate check and the loop's insertion disappear. */
module Core {
  import opened Tasks
  import opened Wheel
  import opened TimeWheelErrors
  import Placement

  /** New: no wheel for a non-positive tick length or slot count; otherwise
      an idle wheel with every slot empty. */
  function New(interval: int, slotNums: int, job: Option<Job>): (r: Option<TimeWheel>)
    ensures r.None? <==> interval <= 0 || slotNums <= 0
    ensures r.Some? ==> && Valid(r.value)
                        && r.value.interval == interval && r.value.slotNums == slotNums
                        && r.value.currentPosition == 0 && r.value.job == job
                        && r.value.taskRecords == map[]
                        && forall p :: 0 <= p < |r.value.slots| ==> r.value.slots[p] == []
  {
    if interval <= 0 || slotNums <= 0 then None
    else Some(TimeWheel(interval, slotNums, 0, seq(slotNums, _ => []), map[], job))
  }

  /** The two placement modes of addTask's `byInterval` flag; the created-time
      mode carries the whole seconds elapsed since the task was created. */
  datatype Mode = ByInterval | ByCreatedTime(passedSecs: int)

  predicate Placeable(w: TimeWheel, t: Task, mode: Mode)
  {
    Valid(w) && t.key !in w.taskRecords && (mode.ByCreatedTime? ==> t.executeCycle >= 1)
  }

  function PlacementOf(w: TimeWheel, t: Task, mode: Mode): (p: Placement.Placement)
    requires Placeable(w, t, mode)
    ensures 0 <= p.position < w.slotNums && 0 <= p.circle
  {
    match mode
    case ByInterval =>
      Placement.ByInterval(w.currentPosition, w.slotNums, w.interval, t.executeCycle)
    case ByCreatedTime(passed) =>
      Placement.ByCreatedTime(w.currentPosition, w.slotNums, w.interval, t.executeCycle, passed)
  }

  /** addTask: computes the task's slot and rotations, appends it at the back
      of that slot and indexes its key there. Everything else is untouched. */
  function PlaceTask(w: TimeWheel, t: Task, mode: Mode): (r: TimeWheel)
    requires Placeable(w, t, mode)
    ensures Valid(r)
    ensures r.interval == w.interval && r.slotNums == w.slotNums
    ensures r.currentPosition == w.currentPosition && r.job == w.job
    ensures t.key in r.taskRecords
    ensures var p := PlacementOf(w, t, mode);
            && TaskOf(r, t.key) == t.(position := p.position, circle := p.circle)
            && r.slots[p.position] == w.slots[p.position] + [TaskOf(r, t.key)]
            && forall q :: 0 <= q < |w.slots| && q != p.position ==> r.slots[q] == w.slots[q]
    ensures r.taskRecords.Keys == w.taskRecords.Keys + {t.key}
    ensures forall k :: k in w.taskRecords ==> r.taskRecords[k] == w.taskRecords[k]
    ensures forall k {:trigger TaskOf(r, k)} :: k in w.taskRecords ==> TaskOf(r, k) == TaskOf(w, k)
  {
    var p := PlacementOf(w, t, mode);
    InsertFrame(w, t.(circle := p.circle), p.position);
    Insert(w, t.(circle := p.circle), p.position)
  }

  /** AddTask: rejects a non-positive period or a missing key, then an
      already indexed key; otherwise places the new task by its creation
      time. */
  function AddTask(w: TimeWheel, cycleSecs: int, key: Option<Key>, passedSecs: int,
                   times: int, job: Option<Job>): (r: Result<TimeWheel>)
    requires Valid(w)
    ensures r == Err(InvalidParams) <==> cycleSecs <= 0 || key.None?
    ensures r == Err(DuplicateTaskKey) <==> cycleSecs > 0 && key.Some? && key.value in w.taskRecords
    ensures r.Ok? <==> cycleSecs > 0 && key.Some? && key.value !in w.taskRecords
    ensures r.Ok? ==>
              var p := Placement.ByCreatedTime(w.currentPosition, w.slotNums, w.interval, cycleSecs, passedSecs);
              && Valid(r.value)
              && r.value.interval == w.interval && r.value.slotNums == w.slotNums
              && r.value.currentPosition == w.currentPosition && r.value.job == w.job
              && r.value.taskRecords.Keys == w.taskRecords.Keys + {key.value}
              && TaskOf(r.value, key.value) == Task(key.value, cycleSecs, p.position, p.circle, times, job)
              && r.value.slots[p.position] == w.slots[p.position] + [TaskOf(r.value, key.value)]
              && (forall q :: 0 <= q < |w.slots| && q != p.position ==> r.value.slots[q] == w.slots[q])
              && (forall k :: k in w.taskRecords ==> TaskOf(r.value, k) == TaskOf(w, k))
  {
    if cycleSecs <= 0 || key.None? then Err(InvalidParams)
    else if key.value in w.taskRecords then Err(DuplicateTaskKey)
    else Ok(PlaceTask(w, Task(key.value, cycleSecs, 0, 0, times, job), ByCreatedTime(passedSecs)))
  }

  /** removeTask: takes the indexed task out of its slot and the index;
      everything else is untouched. */
  function DetachTask(w: TimeWheel, k: Key): (r: TimeWheel)
    requires Valid(w) && k in w.taskRecords
    ensures Valid(r)
    ensures r.interval == w.interval && r.slotNums == w.slotNums
    ensures r.currentPosition == w.currentPosition && r.job == w.job
    ensures r.taskRecords.Keys == w.taskRecords.Keys - {k}
    ensures forall q :: 0 <= q < |r.slots| ==> k !in KeysIn(r.slots[q])
    ensures forall q :: 0 <= q < |w.slots| && q != w.taskRecords[k] ==> r.slots[q] == w.slots[q]
    ensures var p := w.taskRecords[k];
            var i := Find(w.slots[p], k);
            r.slots[p] == w.slots[p][..i] + w.slots[p][i + 1..]
    ensures forall j :: j in r.taskRecords ==> TaskOf(r, j) == TaskOf(w, j)
  {
    var p := w.taskRecords[k];
    RemoveFrameAll(w, p, Find(w.slots[p], k));
    RemoveAt(w, p, Find(w.slots[p], k))
  }

  /** RemoveTask: a missing key is a silent no-op, an unindexed key is an
      error, and an indexed key is detached. */
  function RemoveTask(w: TimeWheel, key: Option<Key>): (r: Result<TimeWheel>)
    requires Valid(w)
    ensures key.None? ==> r == Ok(w)
    ensures key.Some? && key.value !in w.taskRecords ==> r == Err(TaskKeyNotFound)
    ensures key.Some? && key.value in w.taskRecords ==>
              && r.Ok? && Valid(r.value)
              && r.value.interval == w.interval && r.value.slotNums == w.slotNums
              && r.value.currentPosition == w.currentPosition && r.value.job == w.job
              && r.value.taskRecords.Keys == w.taskRecords.Keys - {key.value}
              && (forall q :: 0 <= q < |r.value.slots| ==> key.value !in KeysIn(r.value.slots[q]))
              && (var p := w.taskRecords[key.value];
                  var i := Find(w.slots[p], key.value);
                  && r.value.slots[p] == w.slots[p][..i] + w.slots[p][i + 1..]
                  && forall q :: 0 <= q < |w.slots| && q != p ==> r.value.slots[q] == w.slots[q])
              && (forall j :: j in r.value.taskRecords ==> TaskOf(r.value, j) == TaskOf(w, j))
  {
    if key.None? then Ok(w)
    else if key.value !in w.taskRecords then Err(TaskKeyNotFound)
    else Ok(DetachTask(w, key.value))
  }

  /** Removing a task just added restores the wheel exactly. */
  lemma RemoveUndoesAdd(w: TimeWheel, cycleSecs: int, key: Key, passedSecs: int, times: int, job: Option<Job>)
    requires Valid(w)
    requires AddTask(w, cycleSecs, Some(key), passedSecs, times, job).Ok?
    ensures RemoveTask(AddTask(w, cycleSecs, Some(key), passedSecs, times, job).value, Some(key)) == Ok(w)
  {
    var t := Task(key, cycleSecs, 0, 0, times, job);
    var mode := ByCreatedTime(passedSecs);
    var p := PlacementOf(w, t, mode);
    var w' := Insert(w, t.(circle := p.circle), p.position);
    assert AddTask(w, cycleSecs, Some(key), passedSecs, times, job).value == w';
    RemoveUndoesInsert(w, t.(circle := p.circle), p.position);
    FindUnique(w'.slots[p.position], key, |w.slots[p.position]|);
  }

  /** Registering a key twice without removing it in between fails the
      second time and leaves the wheel as the first call made it. */
  lemma AddTwiceIsDuplicate(w: TimeWheel, cycleSecs: int, key: Key, passedSecs: int, times: int, job: Option<Job>,
                            cycleSecs2: int, passedSecs2: int, times2: int, job2: Option<Job>)
    requires Valid(w)
    requires AddTask(w, cycleSecs, Some(key), passedSecs, times, job).Ok?
    requires cycleSecs2 > 0
    ensures AddTask(AddTask(w, cycleSecs, Some(key), passedSecs, times, job).value,
                    cycleSecs2, Some(key), passedSecs2, times2, job2) == Err(DuplicateTaskKey)
  {
  }

  /** Removing a key twice fails the second time. */
  lemma RemoveTwiceIsNotFound(w: TimeWheel, key: Key)
    requires Valid(w)
    requires RemoveTask(w, Some(key)).Ok?
    ensures RemoveTask(RemoveTask(w, Some(key)).value, Some(key)) == Err(TaskKeyNotFound)
  {
  }
}

/** The walk of a slot that can grow (pkg/timewheel/core.go:91-143) need not
    end. A due task whose period is exactly one rotation is reinserted at
    the back of the slot being walked, and the walk goes on from the
    successor saved before the removal; when that successor is another such
    task, the two take turns at the front forever, firing on every visit.
    The walk over the tasks the slot held when the tick began is given
    beside it: it always ends and fires each task at most once, and it is
    the walk as written whenever no task of the slot comes back to it. */
module ScanFinding {
  import opened Tasks
  import opened Wheel
  import Placement
  import opened Rolling
  import opened TickFacts
  import Schedule

  /** The slot being walked holds exactly two tasks, both due, both
      repeating forever, each with a period of exactly one rotation. */
  predicate DuePair(w: TimeWheel)
    requires Valid(w)
  {
    var s := w.slots[w.currentPosition];
    && |s| == 2
    && (forall j :: 0 <= j < 2 ==>
          && s[j].circle == 0 && s[j].times < 0
          && Placement.Ticks(w.interval, s[j].executeCycle) == w.slotNums)
  }

  lemma DuePairOf(w: TimeWheel, a: Task, b: Task)
    requires Valid(w) && w.slots[w.currentPosition] == [a, b]
    requires a.circle == 0 && a.times < 0 && Placement.Ticks(w.interval, a.executeCycle) == w.slotNums
    requires b.circle == 0 && b.times < 0 && Placement.Ticks(w.interval, b.executeCycle) == w.slotNums
    ensures DuePair(w)
  {
  }

  /** A period of one rotation brings a task back to the slot it fired
      from, with no rotation to wait. */
  lemma OneRotationComesBack(cur: nat, n: nat, interval: nat, cycleSecs: nat)
    requires n >= 1 && interval >= 1 && cur < n && Placement.Ticks(interval, cycleSecs) == n
    ensures Placement.ByInterval(cur, n, interval, cycleSecs) == Placement.Placement(cur, 0)
  {
    Placement.ModOfSum(cur, 1, 0, n);
    Placement.ModNear(cur, n);
    Placement.DivModUnique(n, 1, 0, n);
  }

  /** Visiting the front of such a pair fires it and puts it back behind
      the other one, with the cursor still at the front: the pair has
      swapped places and the walk must go on, using up one unit of fuel. */
  lemma PairSwaps(w: TimeWheel, fuel: nat)
    requires Valid(w) && DuePair(w)
    ensures fuel == 0 ==> VisitAt(w, 0, fuel).Stuck?
    ensures fuel > 0 ==> var v := VisitAt(w, 0, fuel);
                         && v.Continue? && v.cursor == 0 && v.fuel == fuel - 1
                         && DuePair(v.wheel)
  {
    PairRequeued(w);
  }

  /** How the walk's outcome follows from its first visit. */
  lemma ScanAfterVisit(w: TimeWheel, fuel: nat)
    requires Valid(w) && 0 < |w.slots[w.currentPosition]|
    ensures VisitAt(w, 0, fuel).Stuck? ==> ScanSlot(w, 0, fuel).OutOfFuel?
    ensures var v := VisitAt(w, 0, fuel);
            v.Continue? && v.cursor == 0 ==>
              (ScanSlot(w, 0, fuel).OutOfFuel? <==> ScanSlot(v.wheel, 0, v.fuel).OutOfFuel?)
  {
  }

  /** The walk over such a pair never ends, however much fuel it is given. */
  lemma {:induction false} PairNeverFinishes(w: TimeWheel, fuel: nat)
    requires Valid(w) && DuePair(w)
    ensures ScanSlot(w, 0, fuel).OutOfFuel?
    decreases fuel
  {
    if fuel == 0 {
      PairSwaps(w, 0);
      ScanAfterVisit(w, 0);
    } else {
      PairSwaps(w, fuel);
      var v := VisitAt(w, 0, fuel);
      PairNeverFinishes(v.wheel, v.fuel);
      ScanAfterVisit(w, fuel);
    }
  }

  /** So the tick that reaches such a pair never finishes. */
  lemma TickNeverFinishes(w: TimeWheel, fuel: nat)
    requires Valid(w) && DuePair(w)
    ensures Tick(w, fuel).Diverged?
  {
    PairNeverFinishes(w, fuel);
  }

  /** A one-second wheel of sixty slots whose first slot holds two tasks
      "A" and "B" that repeat forever every sixty seconds. */
  function Example(): (w: TimeWheel)
  {
    var a := Task("A", 60, 0, 0, -1, None);
    var b := Task("B", 60, 0, 0, -1, None);
    TimeWheel(1, 60, 0, seq(60, p => if p == 0 then [a, b] else []), map["A" := 0, "B" := 0], None)
  }

  lemma ExampleIsValid()
    ensures Valid(Example()) && DuePair(Example())
  {
    var w := Example();
    assert KeysIn(w.slots[0]) == {"A", "B"} by {
      assert w.slots[0][0].key == "A" && w.slots[0][1].key == "B";
    }
  }

  /** In the example, the first tick never finishes. */
  lemma ExampleNeverFinishes(fuel: nat)
    ensures Valid(Example()) && Tick(Example(), fuel).Diverged?
  {
    ExampleIsValid();
    TickNeverFinishes(Example(), fuel);
  }


  /** What a walk leaves: the wheel and the firings, in order. */
  datatype Walk = Walk(wheel: TimeWheel, fired: seq<Firing>)

  /** The keys of a slot's tasks, in slot order. */
  function KeysOf(s: seq<Task>): (r: seq<Key>)
    ensures |r| == |s| && forall j :: 0 <= j < |s| ==> r[j] == s[j].key
  {
    seq(|s|, j requires 0 <= j < |s| => s[j].key)
  }

  lemma KeysOfKeys(s: seq<Task>, k: Key)
    ensures k in KeysOf(s) <==> k in KeysIn(s)
  {
    if k in KeysIn(s) {
      var t :| t in s && t.key == k;
      var j :| 0 <= j < |s| && s[j] == t;
      assert KeysOf(s)[j] == k;
    }
  }

  /** Keys the corrected walk still has to visit: each is indexed under the
      slot being walked, and none comes twice. */
  predicate Pending(w: TimeWheel, todo: seq<Key>)
    requires Valid(w)
  {
    && (forall j :: 0 <= j < |todo| ==> todo[j] in w.taskRecords && w.taskRecords[todo[j]] == w.currentPosition)
    && (forall a, b :: 0 <= a < b < |todo| ==> todo[a] != todo[b])
  }

  /** The keys of the slot being walked, from cursor `i` on, are pending. */
  lemma SlotPending(w: TimeWheel, i: nat)
    requires Valid(w) && i <= |w.slots[w.currentPosition]|
    ensures Pending(w, KeysOf(w.slots[w.currentPosition][i..]))
  {
    var cur, s := w.currentPosition, w.slots[w.currentPosition];
    var todo := KeysOf(s[i..]);
    forall j | 0 <= j < |todo| ensures todo[j] in w.taskRecords && w.taskRecords[todo[j]] == cur {
      assert s[i + j] in w.slots[cur];
    }
    assert DistinctKeys(s);
    forall a, b | 0 <= a < b < |todo| ensures todo[a] != todo[b] {
      assert todo[a] == s[i + a].key && todo[b] == s[i + b].key;
    }
  }

  /** The corrected walk's visit to the task with key `k`, found in the slot
      being walked wherever earlier visits left it. A waiting task loses a
      rotation; a due task fires with its own job or else the wheel's, is
      taken out, and what Reschedule leaves goes back by interval placement. */
  function SnapshotVisit(w: TimeWheel, k: Key): (v: Walk)
    requires Valid(w) && k in w.taskRecords && w.taskRecords[k] == w.currentPosition
    ensures Valid(v.wheel)
    ensures v.wheel.interval == w.interval && v.wheel.slotNums == w.slotNums
    ensures v.wheel.currentPosition == w.currentPosition && v.wheel.job == w.job
  {
    var cur := w.currentPosition;
    var i := Find(w.slots[cur], k);
    var t := w.slots[cur][i];
    if t.circle > 0 then Walk(DecrementAt(w, cur, i), [])
    else Walk(Requeue(RemoveAt(w, cur, i), Reschedule(t)), [Firing(t.key, Dispatch(t.job, w.job))])
  }

  /** The corrected walk: visits the keys of `todo` in order, the keys the
      slot held when the tick began, and so never a task that came back to
      the slot during the tick. */
  function SnapshotScan(w: TimeWheel, todo: seq<Key>): (r: Walk)
    requires Valid(w) && Pending(w, todo)
    ensures Valid(r.wheel)
    ensures r.wheel.interval == w.interval && r.wheel.slotNums == w.slotNums
    ensures r.wheel.currentPosition == w.currentPosition && r.wheel.job == w.job
    decreases |todo|
  {
    if todo == [] then Walk(w, [])
    else
      var v := SnapshotVisit(w, todo[0]);
      VisitKeepsPending(w, todo);
      var rest := SnapshotScan(v.wheel, todo[1..]);
      Walk(rest.wheel, v.fired + rest.fired)
  }

  /** The corrected walk over the tasks of the slot from cursor `i` on. */
  function SnapshotFrom(w: TimeWheel, i: nat): (r: Walk)
    requires Valid(w) && i <= |w.slots[w.currentPosition]|
    ensures Valid(r.wheel)
    ensures r.wheel.interval == w.interval && r.wheel.slotNums == w.slotNums
    ensures r.wheel.currentPosition == w.currentPosition && r.wheel.job == w.job
  {
    SlotPending(w, i);
    SnapshotScan(w, KeysOf(w.slots[w.currentPosition][i..]))
  }

  /** The corrected tick: walk the slot as it was when the tick began, then
      move the hand one slot on. */
  function SnapshotTick(w: TimeWheel): (r: Walk)
    requires Valid(w)
    ensures Valid(r.wheel)
    ensures r.wheel.interval == w.interval && r.wheel.slotNums == w.slotNums && r.wheel.job == w.job
    ensures r.wheel.currentPosition == (w.currentPosition + 1) % w.slotNums
    ensures |r.fired| <= |w.slots[w.currentPosition]|
    ensures FiresOnce(r.fired) && FiresWithin(r.fired, KeysIn(w.slots[w.currentPosition]))
  {
    var s := w.slots[w.currentPosition];
    SlotPending(w, 0);
    assert s[0..] == s;
    SnapshotScanFires(w, KeysOf(s));
    WithinSlot(SnapshotScan(w, KeysOf(s)).fired, s);
    var walked := SnapshotFrom(w, 0);
    Walk(walked.wheel.(currentPosition := NextPosition(w)), walked.fired)
  }

  /** A visit fires at most the visited key. */
  lemma VisitFires(w: TimeWheel, k: Key)
    requires Valid(w) && k in w.taskRecords && w.taskRecords[k] == w.currentPosition
    ensures var v := SnapshotVisit(w, k);
            |v.fired| <= 1 && forall a :: 0 <= a < |v.fired| ==> v.fired[a].key == k
  {
  }

  /** Key `k` is where it was: indexed on `r` exactly when on `w`, with the
      same slot and task, and not fired. */
  predicate Untouched(w: TimeWheel, k: Key, r: TimeWheel, fired: seq<Firing>)
    requires Valid(w) && Valid(r)
  {
    && (k in r.taskRecords <==> k in w.taskRecords)
    && (k in w.taskRecords ==> r.taskRecords[k] == w.taskRecords[k] && TaskOf(r, k) == TaskOf(w, k))
    && k !in FiredKeys(fired)
  }

  lemma UntouchedThen(w: TimeWheel, k: Key, next: TimeWheel, r: TimeWheel, before: seq<Firing>, fired: seq<Firing>)
    requires Valid(w) && Valid(next) && Valid(r)
    requires Untouched(w, k, next, before) && Untouched(next, k, r, fired)
    ensures Untouched(w, k, r, before + fired)
  {
    FiredKeysAppend(before, fired);
  }

  /** Passing a waiting task of another key leaves `k` alone. */
  lemma PassUntouched(w: TimeWheel, i: nat, k: Key)
    requires Valid(w) && i < |w.slots[w.currentPosition]| && w.slots[w.currentPosition][i].circle > 0
    requires k != w.slots[w.currentPosition][i].key
    ensures Untouched(w, k, DecrementAt(w, w.currentPosition, i), [])
  {
    if k in w.taskRecords {
      TrackDecrement(w, i, k);
    }
  }

  /** Firing a due task of another key leaves `k` alone. */
  lemma FireUntouched(w: TimeWheel, i: nat, k: Key)
    requires Valid(w) && i < |w.slots[w.currentPosition]| && w.slots[w.currentPosition][i].circle == 0
    requires k != w.slots[w.currentPosition][i].key
    ensures var t := w.slots[w.currentPosition][i];
            Untouched(w, k, Requeue(RemoveAt(w, w.currentPosition, i), Reschedule(t)),
                      [Firing(t.key, Dispatch(t.job, w.job))])
  {
    var t := w.slots[w.currentPosition][i];
    var removed := RemoveAt(w, w.currentPosition, i);
    if k in w.taskRecords {
      TrackFire(w, i, k);
    } else {
      TrackAbsent(removed, Reschedule(t), k);
    }
  }

  /** Putting back a task of another key does not index `k`. */
  lemma TrackAbsent(w: TimeWheel, next: Option<Task>, k: Key)
    requires Valid(w) && (next.Some? ==> next.value.key !in w.taskRecords)
    requires k !in w.taskRecords && (next.Some? ==> next.value.key != k)
    ensures k !in Requeue(w, next).taskRecords
  {
  }

  /** A visit to another key leaves `k` alone. */
  lemma VisitUntouched(w: TimeWheel, k0: Key, k: Key)
    requires Valid(w) && k0 in w.taskRecords && w.taskRecords[k0] == w.currentPosition && k != k0
    ensures var v := SnapshotVisit(w, k0);
            Untouched(w, k, v.wheel, v.fired)
  {
    var cur := w.currentPosition;
    var i := Find(w.slots[cur], k0);
    if w.slots[cur][i].circle > 0 {
      PassUntouched(w, i, k);
    } else {
      FireUntouched(w, i, k);
    }
  }

  /** After a visit the keys behind the visited one are still pending. */
  lemma VisitKeepsPending(w: TimeWheel, todo: seq<Key>)
    requires Valid(w) && Pending(w, todo) && todo != []
    ensures Pending(SnapshotVisit(w, todo[0]).wheel, todo[1..])
  {
    var v := SnapshotVisit(w, todo[0]);
    forall j | 1 <= j < |todo|
      ensures todo[j] in v.wheel.taskRecords && v.wheel.taskRecords[todo[j]] == w.currentPosition
    {
      VisitUntouched(w, todo[0], todo[j]);
    }
  }

  /** The keys from cursor `i` on: the key under the cursor, then the keys
      behind it. */
  lemma KeysOfFrom(s: seq<Task>, i: nat)
    requires i < |s|
    ensures KeysOf(s[i..]) == [s[i].key] + KeysOf(s[i + 1..])
  {
  }

  /** The visit to the key under cursor `i` acts on the task under it. */
  lemma VisitAtCursor(w: TimeWheel, i: nat)
    requires Valid(w) && i < |w.slots[w.currentPosition]|
    ensures var cur, t := w.currentPosition, w.slots[w.currentPosition][i];
            && t.key in w.taskRecords && w.taskRecords[t.key] == cur
            && SnapshotVisit(w, t.key)
                 == if t.circle > 0 then Walk(DecrementAt(w, cur, i), [])
                    else Walk(Requeue(RemoveAt(w, cur, i), Reschedule(t)), [Firing(t.key, Dispatch(t.job, w.job))])
  {
    var cur, s := w.currentPosition, w.slots[w.currentPosition];
    assert s[i] in w.slots[cur];
    assert DistinctKeys(s);
    FindUnique(s, s[i].key, i);
  }

  /** The first step of the corrected walk: the visit to the first key,
      then the walk over the rest. */
  lemma ScanFront(w: TimeWheel, todo: seq<Key>)
    requires Valid(w) && Pending(w, todo) && todo != []
    ensures var v := SnapshotVisit(w, todo[0]);
            && Pending(v.wheel, todo[1..])
            && SnapshotScan(w, todo) == Walk(SnapshotScan(v.wheel, todo[1..]).wheel, v.fired + SnapshotScan(v.wheel, todo[1..]).fired)
  {
    VisitKeepsPending(w, todo);
  }

  /** What the corrected walk does to a task `t` of the slot it walks, read
      off the wheel `r` and the firings `fired` it leaves: a waiting task
      loses one rotation, stays where it is and does not fire; a due task
      fires exactly once, with its own job or else the wheel's, and then is
      gone from the index or sits where interval placement put it. */
  predicate Handled(w: TimeWheel, t: Task, r: TimeWheel, fired: seq<Firing>)
    requires Valid(w) && Valid(r)
  {
    && (t.circle > 0 ==>
          && t.key in r.taskRecords && r.taskRecords[t.key] == w.currentPosition
          && TaskOf(r, t.key) == t.(circle := t.circle - 1)
          && FiringsOf(fired, t.key) == [])
    && (t.circle == 0 ==>
          && FiringsOf(fired, t.key) == [Firing(t.key, Dispatch(t.job, w.job))]
          && (Reschedule(t).None? ==> t.key !in r.taskRecords)
          && (Reschedule(t).Some? ==>
                var p := Target(w, Reschedule(t).value);
                && t.key in r.taskRecords && r.taskRecords[t.key] == p.position
                && TaskOf(r, t.key) == Reschedule(t).value.(position := p.position, circle := p.circle)))
  }

  /** The visit to a key handles its task. */
  lemma VisitHandles(w: TimeWheel, k: Key)
    requires Valid(w) && k in w.taskRecords && w.taskRecords[k] == w.currentPosition
    ensures var v := SnapshotVisit(w, k);
            Handled(w, TaskOf(w, k), v.wheel, v.fired)
  {
    var cur := w.currentPosition;
    var i := Find(w.slots[cur], k);
    var t := w.slots[cur][i];
    assert TaskOf(w, k) == t;
    if t.circle > 0 {
      DecrementFrame(w, cur, i);
    } else {
      var f := Firing(t.key, Dispatch(t.job, w.job));
      RequeuedTask(RemoveAt(w, cur, i), Reschedule(t));
      assert FiringsOf([f], t.key) == [f] + FiringsOf([], t.key);
    }
  }

  /** A task handled by a visit and left alone by the rest of the walk is
      handled by the whole walk. */
  lemma HandledThen(w: TimeWheel, t: Task, next: TimeWheel, r: TimeWheel, before: seq<Firing>, fired: seq<Firing>)
    requires Valid(w) && Valid(next) && Valid(r)
    requires next.interval == w.interval && next.slotNums == w.slotNums
    requires next.currentPosition == w.currentPosition && next.job == w.job
    requires Handled(w, t, next, before) && Untouched(next, t.key, r, fired)
    ensures Handled(w, t, r, before + fired)
  {
    NotFired(fired, t.key);
    FiringsOfAppend(before, fired, t.key);
  }

  /** Handling a task is unaffected by a visit to another task before it:
      the settings it is read against are the same, and the other task's
      firing is not one of its own. */
  lemma HandledBehind(w: TimeWheel, next: TimeWheel, t: Task, r: TimeWheel, fired: seq<Firing>, before: seq<Firing>)
    requires Valid(w) && Valid(next) && Valid(r)
    requires next.interval == w.interval && next.slotNums == w.slotNums
    requires next.currentPosition == w.currentPosition && next.job == w.job
    requires forall a :: 0 <= a < |before| ==> before[a].key != t.key
    requires Handled(next, t, r, fired)
    ensures Handled(w, t, r, before + fired)
  {
    NoneOf(before, t.key);
    FiringsOfAppend(before, fired, t.key);
  }

  /** The corrected walk leaves alone every key it does not visit: it
      neither indexes nor drops it, does not move or change its task, and
      does not fire it. */
  lemma {:induction false} SnapshotFrame(w: TimeWheel, todo: seq<Key>, k: Key)
    requires Valid(w) && Pending(w, todo) && k !in todo
    ensures var r := SnapshotScan(w, todo);
            Untouched(w, k, r.wheel, r.fired)
    decreases |todo|
  {
    if todo != [] {
      var v := SnapshotVisit(w, todo[0]);
      VisitKeepsPending(w, todo);
      VisitUntouched(w, todo[0], k);
      SnapshotFrame(v.wheel, todo[1..], k);
      var rest := SnapshotScan(v.wheel, todo[1..]);
      UntouchedThen(w, k, v.wheel, rest.wheel, v.fired, rest.fired);
    }
  }

  /** The corrected walk handles the task of every key it visits. */
  lemma {:induction false} SnapshotHandles(w: TimeWheel, todo: seq<Key>, k: Key)
    requires Valid(w) && Pending(w, todo) && k in todo
    ensures k in w.taskRecords
    ensures var r := SnapshotScan(w, todo);
            Handled(w, TaskOf(w, k), r.wheel, r.fired)
    decreases |todo|
  {
    var v := SnapshotVisit(w, todo[0]);
    VisitKeepsPending(w, todo);
    var rest := SnapshotScan(v.wheel, todo[1..]);
    if k == todo[0] {
      VisitHandles(w, k);
      SnapshotFrame(v.wheel, todo[1..], k);
      HandledThen(w, TaskOf(w, k), v.wheel, rest.wheel, v.fired, rest.fired);
    } else {
      assert k in todo[1..];
      VisitUntouched(w, todo[0], k);
      VisitFires(w, todo[0]);
      SnapshotHandles(v.wheel, todo[1..], k);
      HandledBehind(w, v.wheel, TaskOf(w, k), rest.wheel, rest.fired, v.fired);
    }
  }

  /** The corrected walk fires each key at most once, and only keys it
      visits. */
  lemma {:induction false} SnapshotScanFires(w: TimeWheel, todo: seq<Key>)
    requires Valid(w) && Pending(w, todo)
    ensures var r := SnapshotScan(w, todo);
            && |r.fired| <= |todo|
            && FiresOnce(r.fired)
            && forall a :: 0 <= a < |r.fired| ==> r.fired[a].key in todo
    decreases |todo|
  {
    if todo != [] {
      var v := SnapshotVisit(w, todo[0]);
      ScanFront(w, todo);
      VisitFires(w, todo[0]);
      SnapshotScanFires(v.wheel, todo[1..]);
      FiringFront(v.fired, SnapshotScan(v.wheel, todo[1..]).fired, todo);
    }
  }

  /** The firing of the first key, if any, in front of firings of the later
      keys, each once, fires each key once and only keys of `todo`. */
  lemma FiringFront(before: seq<Firing>, rest: seq<Firing>, todo: seq<Key>)
    requires todo != [] && forall a, b :: 0 <= a < b < |todo| ==> todo[a] != todo[b]
    requires |before| <= 1 && forall a :: 0 <= a < |before| ==> before[a].key == todo[0]
    requires FiresOnce(rest) && forall a :: 0 <= a < |rest| ==> rest[a].key in todo[1..]
    ensures |before + rest| <= 1 + |rest|
    ensures FiresOnce(before + rest)
    ensures forall a :: 0 <= a < |before + rest| ==> (before + rest)[a].key in todo
  {
    var r := before + rest;
    forall a | 0 <= a < |rest| ensures rest[a].key != todo[0] {
      var j :| 0 <= j < |todo[1..]| && todo[1..][j] == rest[a].key;
      assert todo[j + 1] == rest[a].key;
    }
    forall a, b | 0 <= a < b < |r| ensures r[a].key != r[b].key {
      if a < |before| {
        assert r[b] == rest[b - |before|];
      } else {
        assert r[a] == rest[a - |before|] && r[b] == rest[b - |before|];
      }
    }
  }

  /** Firings of keys of a slot fire within the slot's keys. */
  lemma WithinSlot(fired: seq<Firing>, s: seq<Task>)
    requires forall a :: 0 <= a < |fired| ==> fired[a].key in KeysOf(s)
    ensures FiresWithin(fired, KeysIn(s))
  {
    forall f | f in fired ensures f.key in KeysIn(s) {
      var a :| 0 <= a < |fired| && fired[a] == f;
      KeysOfKeys(s, f.key);
    }
  }

  /** A key of the slot being walked is due when its task has no rotation
      left to wait. */
  predicate Due(w: TimeWheel, k: Key)
    requires Valid(w)
  {
    k in w.taskRecords && w.taskRecords[k] == w.currentPosition && TaskOf(w, k).circle == 0
  }

  /** Moving the hand changes nothing a handled task is read against. */
  lemma HandledMoveHand(w: TimeWheel, t: Task, r: TimeWheel, fired: seq<Firing>, p: nat)
    requires Valid(w) && Valid(r) && p < r.slotNums && Handled(w, t, r, fired)
    ensures Valid(r.(currentPosition := p)) && Handled(w, t, r.(currentPosition := p), fired)
  {
    if t.key in r.taskRecords {
      MoveHand(r, p, t.key);
    }
  }

  /** The corrected tick handles every task of the slot it walks: a due
      task fires exactly once, with its own job or else the wheel's, and is
      dropped or rescheduled by interval; a waiting task stays, loses one
      rotation and does not fire. */
  lemma SnapshotTickHandles(w: TimeWheel, k: Key)
    requires Valid(w) && k in w.taskRecords && w.taskRecords[k] == w.currentPosition
    ensures Handled(w, TaskOf(w, k), SnapshotTick(w).wheel, SnapshotTick(w).fired)
  {
    var s := w.slots[w.currentPosition];
    SlotPending(w, 0);
    assert s[0..] == s;
    KeysOfKeys(s, k);
    SnapshotHandles(w, KeysOf(s), k);
    var walked := SnapshotFrom(w, 0);
    HandledMoveHand(w, TaskOf(w, k), walked.wheel, walked.fired, NextPosition(w));
  }

  /** The corrected tick leaves alone every key outside the slot it walks. */
  lemma SnapshotTickLeaves(w: TimeWheel, k: Key)
    requires Valid(w) && (k !in w.taskRecords || w.taskRecords[k] != w.currentPosition)
    ensures Untouched(w, k, SnapshotTick(w).wheel, SnapshotTick(w).fired)
  {
    var s := w.slots[w.currentPosition];
    SlotPending(w, 0);
    assert s[0..] == s;
    KeysOfKeys(s, k);
    IndexedIffStored(w, w.currentPosition, k);
    SnapshotFrame(w, KeysOf(s), k);
    var walked := SnapshotFrom(w, 0);
    if k in w.taskRecords {
      MoveHand(walked.wheel, NextPosition(w), k);
    }
  }

  /** The corrected tick fires a key exactly once when it is due, with its
      task's job or else the wheel's, and never otherwise. */
  lemma SnapshotTickFiresOnce(w: TimeWheel, k: Key)
    requires Valid(w)
    ensures FiringsOf(SnapshotTick(w).fired, k)
              == if Due(w, k) then [Firing(k, Dispatch(TaskOf(w, k).job, w.job))] else []
  {
    if k in w.taskRecords && w.taskRecords[k] == w.currentPosition {
      SnapshotTickHandles(w, k);
    } else {
      SnapshotTickLeaves(w, k);
      NotFired(SnapshotTick(w).fired, k);
    }
  }

  /** A task with a period of one rotation, put back by interval
      placement, lands at the back of the slot being walked, due again. */
  lemma RequeueOneRotation(w: TimeWheel, t: Task)
    requires Valid(w) && t.key !in w.taskRecords
    requires Placement.Ticks(w.interval, t.executeCycle) == w.slotNums
    ensures BackInCurrentSlot(w, Some(t))
    ensures Requeue(w, Some(t)).slots[w.currentPosition]
              == w.slots[w.currentPosition] + [t.(position := w.currentPosition, circle := 0)]
  {
    OneRotationComesBack(w.currentPosition, w.slotNums, w.interval, t.executeCycle);
  }

  lemma AppendOne(a: Task, b: Task)
    ensures [a] + [b] == [a, b]
  {
  }

  /** Firing the front of a due pair puts it back behind the other one,
      and the pair is still due. */
  lemma PairRequeued(w: TimeWheel)
    requires Valid(w) && DuePair(w)
    ensures var s := w.slots[w.currentPosition];
            var removed := RemoveAt(w, w.currentPosition, 0);
            var next := Requeue(removed, Reschedule(s[0]));
            && BackInCurrentSlot(removed, Reschedule(s[0]))
            && DuePair(next) && next.job == w.job
            && next.slots[w.currentPosition] == [s[1], s[0].(position := w.currentPosition, circle := 0)]
  {
    var cur := w.currentPosition;
    var s := w.slots[cur];
    var removed := RemoveAt(w, cur, 0);
    assert removed.slots[cur] == [s[1]];
    assert Reschedule(s[0]) == Some(s[0]);
    RequeueOneRotation(removed, s[0]);
    var next := Requeue(removed, Reschedule(s[0]));
    var back := s[0].(position := cur, circle := 0);
    assert next.slots[cur] == removed.slots[cur] + [back];
    AppendOne(s[1], back);
    DuePairOf(next, s[1], back);
  }


  /** The corrected walk over a due pair fires each of the two once, in
      slot order. */
  lemma SnapshotPairFiresBoth(w: TimeWheel)
    requires Valid(w) && DuePair(w)
    ensures var s := w.slots[w.currentPosition];
            SnapshotTick(w).fired == [Firing(s[0].key, Dispatch(s[0].job, w.job)),
                                      Firing(s[1].key, Dispatch(s[1].job, w.job))]
  {
    var s := w.slots[w.currentPosition];
    SlotPending(w, 0);
    assert s[0..] == s;
    PairScan(w);
    AppendPair(Firing(s[0].key, Dispatch(s[0].job, w.job)), Firing(s[1].key, Dispatch(s[1].job, w.job)));
  }

  /** Over a due pair the corrected walk fires the front task, then the
      one that was behind it, which is at the front once the first is put
      back; it does not come round to the first again. */
  lemma PairScan(w: TimeWheel)
    requires Valid(w) && DuePair(w)
    ensures var s := w.slots[w.currentPosition];
            && Pending(w, KeysOf(s))
            && SnapshotScan(w, KeysOf(s)).fired
                 == [Firing(s[0].key, Dispatch(s[0].job, w.job))] + ([Firing(s[1].key, Dispatch(s[1].job, w.job))] + [])
  {
    var cur, s := w.currentPosition, w.slots[w.currentPosition];
    var w1 := Requeue(RemoveAt(w, cur, 0), Reschedule(s[0]));
    PairFront(w);
    PairRequeued(w);
    ScanSingle(w1, 0);
    VisitAtCursor(w1, 0);
  }

  /** The first visit of the corrected walk over two tasks, the first due. */
  lemma PairFront(w: TimeWheel)
    requires Valid(w) && |w.slots[w.currentPosition]| == 2 && w.slots[w.currentPosition][0].circle == 0
    ensures var cur, s := w.currentPosition, w.slots[w.currentPosition];
            var w1 := Requeue(RemoveAt(w, cur, 0), Reschedule(s[0]));
            && Pending(w, KeysOf(s)) && Pending(w1, [s[1].key])
            && SnapshotScan(w, KeysOf(s)).fired
                 == [Firing(s[0].key, Dispatch(s[0].job, w.job))] + SnapshotScan(w1, [s[1].key]).fired
  {
    var cur, s := w.currentPosition, w.slots[w.currentPosition];
    var todo := KeysOf(s);
    SlotPending(w, 0);
    assert s[0..] == s;
    VisitAtCursor(w, 0);
    ScanFront(w, todo);
    assert todo[1..] == [s[1].key];
  }

  /** The corrected walk over one key fires what the visit to it fires. */
  lemma ScanSingle(w: TimeWheel, i: nat)
    requires Valid(w) && i < |w.slots[w.currentPosition]|
    ensures var k := w.slots[w.currentPosition][i].key;
            && Pending(w, [k])
            && SnapshotScan(w, [k]).fired == SnapshotVisit(w, k).fired + []
  {
    var k := w.slots[w.currentPosition][i].key;
    assert w.slots[w.currentPosition][i] in w.slots[w.currentPosition];
    ScanFront(w, [k]);
    assert [k][1..] == [];
  }

  lemma AppendPair(f0: Firing, f1: Firing)
    ensures [f0] + ([f1] + []) == [f0, f1]
  {
  }

  /** In the example, the corrected tick fires "A" and "B" once each. */
  lemma ExampleFiresEachOnce()
    ensures Valid(Example())
    ensures SnapshotTick(Example()).fired == [Firing("A", NoJob), Firing("B", NoJob)]
  {
    ExampleIsValid();
    SnapshotPairFiresBoth(Example());
  }

  /** The slot being walked holds a due task that repeats forever with a
      period of `q` whole rotations, and behind it a task still waiting. */
  predicate DueThenWaiting(w: TimeWheel, q: nat)
    requires Valid(w)
  {
    var s := w.slots[w.currentPosition];
    && |s| == 2 && q >= 1
    && s[0].circle == 0 && s[0].times < 0
    && Placement.Ticks(w.interval, s[0].executeCycle) == Schedule.Rounds(q, w.slotNums)
    && s[1].circle > 0
  }

  /** A period of `q` whole rotations brings a task back to the slot it
      fired from, `q - 1` rotations away. */
  lemma WholeRotationsComeBack(cur: nat, n: nat, interval: nat, cycleSecs: nat, q: nat)
    requires n >= 1 && interval >= 1 && cur < n && q >= 1
    requires Placement.Ticks(interval, cycleSecs) == Schedule.Rounds(q, n)
    ensures Placement.ByInterval(cur, n, interval, cycleSecs) == Placement.Placement(cur, q - 1)
  {
    Schedule.RoundsIsProduct(q, n);
    Placement.ModOfSum(cur, q, 0, n);
    Placement.ModNear(cur, n);
    Placement.DivModUnique(q * n, q, 0, n);
  }

  /** A task with a period of `q` whole rotations, put back by interval
      placement, lands at the back of the slot being walked, `q - 1`
      rotations away. */
  lemma RequeueWholeRotations(w: TimeWheel, t: Task, q: nat)
    requires Valid(w) && t.key !in w.taskRecords && q >= 1
    requires Placement.Ticks(w.interval, t.executeCycle) == Schedule.Rounds(q, w.slotNums)
    ensures BackInCurrentSlot(w, Some(t))
    ensures Requeue(w, Some(t)).slots[w.currentPosition]
              == w.slots[w.currentPosition] + [t.(position := w.currentPosition, circle := q - 1)]
  {
    WholeRotationsComeBack(w.currentPosition, w.slotNums, w.interval, t.executeCycle, q);
  }

  /** Firing the due task puts it back behind the waiting one, `q - 1`
      rotations away. */
  lemma DueThenWaitingRequeued(w: TimeWheel, q: nat)
    requires Valid(w) && DueThenWaiting(w, q)
    ensures var cur, s := w.currentPosition, w.slots[w.currentPosition];
            var removed := RemoveAt(w, cur, 0);
            && BackInCurrentSlot(removed, Reschedule(s[0]))
            && Requeue(removed, Reschedule(s[0])).slots[cur] == [s[1], s[0].(circle := q - 1)]
  {
    var cur, s := w.currentPosition, w.slots[w.currentPosition];
    var removed := RemoveAt(w, cur, 0);
    assert removed.slots[cur] == [s[1]];
    assert Reschedule(s[0]) == Some(s[0]);
    assert s[0] in w.slots[cur];
    RequeueWholeRotations(removed, s[0], q);
    assert s[0].(position := cur, circle := q - 1) == s[0].(circle := q - 1);
    AppendOne(s[1], s[0].(circle := q - 1));
  }

  /** So the first visit uses a unit of fuel, and with none left the walk
      is cut off; otherwise it goes on from the waiting task. */
  lemma DueThenWaitingFront(w: TimeWheel, q: nat, fuel: nat)
    requires Valid(w) && DueThenWaiting(w, q)
    ensures fuel == 0 ==> VisitAt(w, 0, fuel).Stuck?
    ensures var cur, s := w.currentPosition, w.slots[w.currentPosition];
            var v := VisitAt(w, 0, fuel);
            fuel > 0 ==> && v.Continue? && v.cursor == 0 && v.fuel == fuel - 1
                         && v.fired == [Firing(s[0].key, Dispatch(s[0].job, w.job))]
                         && v.wheel.slots[cur] == [s[1], s[0].(circle := q - 1)]
  {
    DueThenWaitingRequeued(w, q);
  }

  /** Then the waiting task loses a rotation, and the walk reaches the
      task just put back. */
  lemma DueThenWaitingMiddle(w1: TimeWheel, a: Task, b: Task, fuel: nat)
    requires Valid(w1) && w1.slots[w1.currentPosition] == [b, a] && b.circle > 0
    ensures var w2 := DecrementAt(w1, w1.currentPosition, 0);
            && w2.slots[w1.currentPosition] == [b.(circle := b.circle - 1), a]
            && VisitAt(w1, 0, fuel) == Continue(w2, 1, fuel, [])
  {
  }

  /** The walk ends at the task put back: with no rotation left it fires
      again, and is put back once more; otherwise it loses a rotation. */
  lemma DueThenWaitingBack(w2: TimeWheel, a: Task, b: Task, fuel: nat)
    requires Valid(w2) && w2.slots[w2.currentPosition] == [b, a] && a.times < 0
    ensures var r := ScanSlot(w2, 1, fuel);
            && r.Done?
            && (a.circle == 0 ==> && r.fired == [Firing(a.key, Dispatch(a.job, w2.job))]
                                  && r.wheel == Requeue(RemoveAt(w2, w2.currentPosition, 1), Some(a)))
            && (a.circle > 0 ==> && r.fired == []
                                 && r.wheel.slots[w2.currentPosition] == [b, a.(circle := a.circle - 1)])
  {
    var cur := w2.currentPosition;
    if a.circle == 0 {
      assert Reschedule(a) == Some(a);
      assert VisitAt(w2, 1, fuel).Stop?;
    } else {
      var w3 := DecrementAt(w2, cur, 1);
      assert VisitAt(w2, 1, fuel) == Continue(w3, 2, fuel, []);
      assert ScanSlot(w3, 2, fuel) == Done(w3, []);
    }
  }

  /** A walk whose first visit continues it ends when the rest ends, with
      the first visit's firings ahead of the rest's. */
  lemma ScanThen(w: TimeWheel, i: nat, fuel: nat, v: Visit, rest: Scan)
    requires Valid(w) && i < |w.slots[w.currentPosition]|
    requires VisitAt(w, i, fuel) == v && v.Continue?
    requires ScanSlot(v.wheel, v.cursor, v.fuel) == rest && rest.Done?
    ensures ScanSlot(w, i, fuel) == Done(rest.wheel, v.fired + rest.fired)
  {
  }

  /** From the waiting task on, the walk ends: the task put back fires
      again when it has no rotation left, and otherwise loses one. */
  lemma DueThenWaitingRest(w1: TimeWheel, a: Task, b: Task, fuel: nat)
    requires Valid(w1) && w1.slots[w1.currentPosition] == [b, a] && b.circle > 0 && a.times < 0
    ensures var r := ScanSlot(w1, 0, fuel);
            && r.Done?
            && (a.circle == 0 ==> r.fired == [] + [Firing(a.key, Dispatch(a.job, w1.job))])
            && (a.circle > 0 ==> && r.fired == [] + []
                                 && r.wheel.slots[w1.currentPosition]
                                      == [b.(circle := b.circle - 1), a.(circle := a.circle - 1)])
  {
    var w2 := DecrementAt(w1, w1.currentPosition, 0);
    DueThenWaitingMiddle(w1, a, b, fuel);
    DueThenWaitingBack(w2, a, b.(circle := b.circle - 1), fuel);
    ScanThen(w1, 0, fuel, Continue(w2, 1, fuel, []), ScanSlot(w2, 1, fuel));
  }

  /** A walk whose first visit fires a task, puts it back behind a waiting
      one and goes on from the waiting one, ends as the rest of the walk
      says, the first firing ahead. */
  lemma FireThenRest(w: TimeWheel, fuel: nat, f: Firing, a: Task, b: Task)
    requires Valid(w) && 0 < |w.slots[w.currentPosition]| && b.circle > 0 && a.times < 0
    requires var v := VisitAt(w, 0, fuel);
             && v.Continue? && v.cursor == 0 && v.fuel + 1 == fuel && v.fired == [f]
             && v.wheel.slots[w.currentPosition] == [b, a]
    ensures var r, v := ScanSlot(w, 0, fuel), VisitAt(w, 0, fuel);
            && r.Done?
            && (a.circle == 0 ==> r.fired == [f] + ([] + [Firing(a.key, Dispatch(a.job, w.job))]))
            && (a.circle > 0 ==> && r.fired == [f] + ([] + [])
                                 && r.wheel.slots[w.currentPosition]
                                      == [b.(circle := b.circle - 1), a.(circle := a.circle - 1)])
  {
    var v := VisitAt(w, 0, fuel);
    DueThenWaitingRest(v.wheel, a, b, v.fuel);
    ScanThen(w, 0, fuel, v, ScanSlot(v.wheel, 0, v.fuel));
  }

  /** A tick whose walk ends leaves what the walk leaves, with the hand one
      slot on. */
  lemma TickOfScan(w: TimeWheel, fuel: nat, r: Scan)
    requires Valid(w) && ScanSlot(w, 0, fuel) == r && r.Done?
    ensures Tick(w, fuel) == Ticked(r.wheel.(currentPosition := NextPosition(w)), r.fired)
  {
  }

  /** With no fuel, the tick as written over such a slot reports the walk
      as one that does not end, although with fuel it ends: fuel counts
      only how often a fired task goes back into the slot being walked. */
  lemma DueThenWaitingCutOff(w: TimeWheel, q: nat)
    requires Valid(w) && DueThenWaiting(w, q)
    ensures Tick(w, 0).Diverged?
  {
    DueThenWaitingFront(w, q, 0);
  }

  /** When the period is one rotation, the tick as written fires the due
      task twice: once from the front of the slot, and again from the back,
      where it was put back with no rotation to wait. */
  lemma DueThenWaitingFiresTwice(w: TimeWheel, fuel: nat)
    requires Valid(w) && DueThenWaiting(w, 1) && fuel > 0
    ensures var s := w.slots[w.currentPosition];
            var f := Firing(s[0].key, Dispatch(s[0].job, w.job));
            Tick(w, fuel).Ticked? && Tick(w, fuel).fired == [f, f]
  {
    var s := w.slots[w.currentPosition];
    var f := Firing(s[0].key, Dispatch(s[0].job, w.job));
    DueThenWaitingFront(w, 1, fuel);
    FireThenRest(w, fuel, f, s[0].(circle := 0), s[1]);
    TickOfScan(w, fuel, ScanSlot(w, 0, fuel));
    assert [f] + ([] + [f]) == [f, f];
  }

  /** When the period is `q >= 2` rotations, the tick as written fires the
      due task once, but reaches it again at the back of the slot and takes
      a rotation off: it is left `q - 2` rotations away, due one rotation
      before its period is up. */
  lemma DueThenWaitingLosesRotation(w: TimeWheel, q: nat, fuel: nat)
    requires Valid(w) && DueThenWaiting(w, q) && q >= 2 && fuel > 0
    ensures var s := w.slots[w.currentPosition];
            var f := Firing(s[0].key, Dispatch(s[0].job, w.job));
            && Tick(w, fuel).Ticked? && Tick(w, fuel).fired == [f]
            && Tick(w, fuel).wheel.slots[w.currentPosition]
                 == [s[1].(circle := s[1].circle - 1), s[0].(circle := q - 2)]
  {
    var s := w.slots[w.currentPosition];
    var f := Firing(s[0].key, Dispatch(s[0].job, w.job));
    var a := s[0].(circle := q - 1);
    DueThenWaitingFront(w, q, fuel);
    FireThenRest(w, fuel, f, a, s[1]);
    TickOfScan(w, fuel, ScanSlot(w, 0, fuel));
    assert [f] + ([] + []) == [f];
    assert a.(circle := a.circle - 1) == s[0].(circle := q - 2);
  }

  /** A due task does not come back to the slot being walked: it has no
      repeat left, or interval placement sends it elsewhere. */
  predicate Leaves(w: TimeWheel, t: Task)
    requires Valid(w)
  {
    t.times == 0 || Target(w, t).position != w.currentPosition
  }

  /** No task from cursor `i` on comes back to the slot being walked. */
  predicate NoneComesBack(w: TimeWheel, i: nat)
    requires Valid(w) && i <= |w.slots[w.currentPosition]|
  {
    forall j :: i <= j < |w.slots[w.currentPosition]| ==> Leaves(w, w.slots[w.currentPosition][j])
  }

  /** Firing a task that leaves takes it out of the slot being walked for
      good: the tasks behind it move down by one. */
  lemma FiringLeaves(w: TimeWheel, i: nat)
    requires Valid(w) && i < |w.slots[w.currentPosition]|
    requires w.slots[w.currentPosition][i].circle == 0
    requires NoneComesBack(w, i)
    ensures var cur, s := w.currentPosition, w.slots[w.currentPosition];
            var removed := RemoveAt(w, cur, i);
            && !BackInCurrentSlot(removed, Reschedule(s[i]))
            && Requeue(removed, Reschedule(s[i])).slots[cur] == s[..i] + s[i + 1..]
            && NoneComesBack(Requeue(removed, Reschedule(s[i])), i)
  {
    var cur, s := w.currentPosition, w.slots[w.currentPosition];
    var removed := RemoveAt(w, cur, i);
    assert Leaves(w, s[i]);
    var next := Requeue(removed, Reschedule(s[i]));
    assert next.slots[cur] == s[..i] + s[i + 1..];
    forall j | i <= j < |next.slots[cur]| ensures Leaves(next, next.slots[cur][j]) {
      assert next.slots[cur][j] == s[j + 1];
      assert Leaves(w, s[j + 1]);
    }
  }

  /** Passing a waiting task changes nothing behind it. */
  lemma PassingLeaves(w: TimeWheel, i: nat)
    requires Valid(w) && i < |w.slots[w.currentPosition]|
    requires w.slots[w.currentPosition][i].circle > 0
    requires NoneComesBack(w, i)
    ensures var next := DecrementAt(w, w.currentPosition, i);
            && |next.slots[w.currentPosition]| == |w.slots[w.currentPosition]|
            && NoneComesBack(next, i + 1)
  {
    var cur, s := w.currentPosition, w.slots[w.currentPosition];
    var next := DecrementAt(w, cur, i);
    forall j | i + 1 <= j < |next.slots[cur]| ensures Leaves(next, next.slots[cur][j]) {
      assert next.slots[cur][j] == s[j];
    }
  }

  /** The walk as written, past a waiting task. */
  lemma ScanPassStep(w: TimeWheel, i: nat, fuel: nat)
    requires Valid(w) && i < |w.slots[w.currentPosition]| && w.slots[w.currentPosition][i].circle > 0
    ensures var rest := ScanSlot(DecrementAt(w, w.currentPosition, i), i + 1, fuel);
            rest.Done? ==> ScanSlot(w, i, fuel) == rest
  {
    var rest := ScanSlot(DecrementAt(w, w.currentPosition, i), i + 1, fuel);
    if rest.Done? {
      assert [] + rest.fired == rest.fired;
    }
  }

  /** The corrected walk, past a waiting task: the same walk from the
      next cursor. */
  lemma SnapshotPassStep(w: TimeWheel, i: nat)
    requires Valid(w) && i < |w.slots[w.currentPosition]| && w.slots[w.currentPosition][i].circle > 0
    ensures var next := DecrementAt(w, w.currentPosition, i);
            && i + 1 <= |next.slots[w.currentPosition]|
            && SnapshotFrom(w, i) == SnapshotFrom(next, i + 1)
  {
    var cur, s := w.currentPosition, w.slots[w.currentPosition];
    var next := DecrementAt(w, cur, i);
    SlotPending(w, i);
    KeysOfFrom(s, i);
    VisitAtCursor(w, i);
    ScanFront(w, KeysOf(s[i..]));
    assert next.slots[cur][i + 1..] == s[i + 1..];
    var rest := SnapshotScan(next, KeysOf(s[i + 1..]));
    assert [] + rest.fired == rest.fired;
  }

  /** The walk as written, at a due task that leaves the slot. */
  lemma ScanFireStep(w: TimeWheel, i: nat, fuel: nat)
    requires Valid(w) && i < |w.slots[w.currentPosition]| && w.slots[w.currentPosition][i].circle == 0
    requires !BackInCurrentSlot(RemoveAt(w, w.currentPosition, i), Reschedule(w.slots[w.currentPosition][i]))
    ensures var t := w.slots[w.currentPosition][i];
            var next := Requeue(RemoveAt(w, w.currentPosition, i), Reschedule(t));
            var f := Firing(t.key, Dispatch(t.job, w.job));
            && i <= |next.slots[w.currentPosition]|
            && (ScanSlot(next, i, fuel).Done? ==>
                  ScanSlot(w, i, fuel) == Done(ScanSlot(next, i, fuel).wheel, [f] + ScanSlot(next, i, fuel).fired))
  {
    var cur, s := w.currentPosition, w.slots[w.currentPosition];
    var t := s[i];
    var next := Requeue(RemoveAt(w, cur, i), Reschedule(t));
    if i + 1 == |s| {
      var f := Firing(t.key, Dispatch(t.job, w.job));
      assert [f] + [] == [f];
    }
  }

  /** The corrected walk, at a due task that leaves the slot: its firing,
      then the same walk from the same cursor. */
  lemma SnapshotFireStep(w: TimeWheel, i: nat)
    requires Valid(w) && i < |w.slots[w.currentPosition]| && w.slots[w.currentPosition][i].circle == 0
    requires !BackInCurrentSlot(RemoveAt(w, w.currentPosition, i), Reschedule(w.slots[w.currentPosition][i]))
    ensures var cur, s := w.currentPosition, w.slots[w.currentPosition];
            var next := Requeue(RemoveAt(w, cur, i), Reschedule(s[i]));
            && next.slots[cur] == s[..i] + s[i + 1..]
            && SnapshotFrom(w, i)
                 == Walk(SnapshotFrom(next, i).wheel, [Firing(s[i].key, Dispatch(s[i].job, w.job))] + SnapshotFrom(next, i).fired)
  {
    var cur, s := w.currentPosition, w.slots[w.currentPosition];
    var next := Requeue(RemoveAt(w, cur, i), Reschedule(s[i]));
    SlotPending(w, i);
    KeysOfFrom(s, i);
    VisitAtCursor(w, i);
    ScanFront(w, KeysOf(s[i..]));
    assert next.slots[cur] == s[..i] + s[i + 1..];
    assert next.slots[cur][i..] == s[i + 1..];
  }

  /** The walk as written and the corrected walk agree from cursor `i`. */
  predicate ScanAgrees(w: TimeWheel, i: nat, fuel: nat)
    requires Valid(w) && i <= |w.slots[w.currentPosition]|
  {
    ScanSlot(w, i, fuel) == Done(SnapshotFrom(w, i).wheel, SnapshotFrom(w, i).fired)
  }

  /** Past a waiting task, agreement behind it is agreement from it. */
  lemma PassAgrees(w: TimeWheel, i: nat, fuel: nat)
    requires Valid(w) && i < |w.slots[w.currentPosition]| && w.slots[w.currentPosition][i].circle > 0
    requires |DecrementAt(w, w.currentPosition, i).slots[w.currentPosition]| == |w.slots[w.currentPosition]|
    requires ScanAgrees(DecrementAt(w, w.currentPosition, i), i + 1, fuel)
    ensures ScanAgrees(w, i, fuel)
  {
    ScanPassStep(w, i, fuel);
    SnapshotPassStep(w, i);
  }

  /** At a due task that leaves the slot, agreement after it is agreement
      from it. */
  lemma FireAgrees(w: TimeWheel, i: nat, fuel: nat)
    requires Valid(w) && i < |w.slots[w.currentPosition]| && w.slots[w.currentPosition][i].circle == 0
    requires var t := w.slots[w.currentPosition][i];
             && !BackInCurrentSlot(RemoveAt(w, w.currentPosition, i), Reschedule(t))
             && |Requeue(RemoveAt(w, w.currentPosition, i), Reschedule(t)).slots[w.currentPosition]|
                  == |w.slots[w.currentPosition]| - 1
             && ScanAgrees(Requeue(RemoveAt(w, w.currentPosition, i), Reschedule(t)), i, fuel)
    ensures ScanAgrees(w, i, fuel)
  {
    ScanFireStep(w, i, fuel);
    SnapshotFireStep(w, i);
  }

  /** When no task of the slot comes back to it, the walk as written and
      the corrected walk are the same walk. */
  lemma {:induction false} ScanIsSnapshot(w: TimeWheel, i: nat, fuel: nat)
    requires Valid(w) && i <= |w.slots[w.currentPosition]| && NoneComesBack(w, i)
    ensures ScanAgrees(w, i, fuel)
    decreases |w.slots[w.currentPosition]| - i
  {
    var cur, s := w.currentPosition, w.slots[w.currentPosition];
    if i < |s| {
      if s[i].circle > 0 {
        PassingLeaves(w, i);
        ScanIsSnapshot(DecrementAt(w, cur, i), i + 1, fuel);
        PassAgrees(w, i, fuel);
      } else {
        FiringLeaves(w, i);
        ScanIsSnapshot(Requeue(RemoveAt(w, cur, i), Reschedule(s[i])), i, fuel);
        FireAgrees(w, i, fuel);
      }
    }
  }

  /** So a tick over such a slot finishes, and agrees with the corrected
      tick. */
  lemma TickIsSnapshot(w: TimeWheel, fuel: nat)
    requires Valid(w) && NoneComesBack(w, 0)
    ensures Tick(w, fuel) == Ticked(SnapshotTick(w).wheel, SnapshotTick(w).fired)
  {
    ScanIsSnapshot(w, 0, fuel);
    assert ScanAgrees(w, 0, fuel);
  }

  /** A slot whose tasks each have no repeat left or a period that is not a
      whole number of rotations: the tick as written over it finishes, with
      any fuel, and agrees with the corrected tick. */
  lemma TickIsSnapshotWhenNoneRepeatsPerRotation(w: TimeWheel, fuel: nat)
    requires Valid(w)
    requires forall t :: t in w.slots[w.currentPosition] ==>
               t.times == 0 || Placement.Ticks(w.interval, t.executeCycle) % w.slotNums != 0
    ensures Tick(w, fuel) == Ticked(SnapshotTick(w).wheel, SnapshotTick(w).fired)
  {
    var s := w.slots[w.currentPosition];
    forall j | 0 <= j < |s| ensures Leaves(w, s[j]) {
      assert s[j] in s;
      if s[j].times != 0 {
        Schedule.ElsewhereThanCurrent(w.currentPosition, w.slotNums, w.interval, s[j].executeCycle);
      }
    }
    TickIsSnapshot(w, fuel);
  }

  /** A task that cannot come back to the slot it fires from: it has no
      repeat left, or its period is not a whole number of rotations. */
  predicate NotPerRotation(w: TimeWheel, t: Task)
    requires Valid(w)
  {
    t.times == 0 || Placement.Ticks(w.interval, t.executeCycle) % w.slotNums != 0
  }

  /** Every task the wheel holds is one that cannot come back. */
  predicate NoneRepeatsPerRotation(w: TimeWheel)
    requires Valid(w)
  {
    forall k :: k in w.taskRecords ==> NotPerRotation(w, TaskOf(w, k))
  }

  /** In particular every task of the slot the hand is on. */
  lemma SlotNoneRepeats(w: TimeWheel)
    requires Valid(w) && NoneRepeatsPerRotation(w)
    ensures forall t :: t in w.slots[w.currentPosition] ==>
              t.times == 0 || Placement.Ticks(w.interval, t.executeCycle) % w.slotNums != 0
  {
    var s := w.slots[w.currentPosition];
    forall t | t in s ensures NotPerRotation(w, t) {
      var j :| 0 <= j < |s| && s[j] == t;
      assert DistinctKeys(s);
      FindUnique(s, t.key, j);
      assert TaskOf(w, t.key) == t;
    }
  }

  /** The corrected tick keeps that true: the tasks it leaves are the
      tasks it was given, some with a rotation or a repeat fewer, and
      neither the period nor a spent repeat count comes back. */
  lemma SnapshotTickKeeps(w: TimeWheel)
    requires Valid(w) && NoneRepeatsPerRotation(w)
    ensures NoneRepeatsPerRotation(SnapshotTick(w).wheel)
  {
    var r := SnapshotTick(w).wheel;
    forall k | k in r.taskRecords ensures NotPerRotation(r, TaskOf(r, k)) {
      if k in w.taskRecords && w.taskRecords[k] == w.currentPosition {
        SnapshotTickHandles(w, k);
      } else {
        SnapshotTickLeaves(w, k);
      }
    }
  }

  /** `m` corrected ticks in a row, with the firings of each tick. Unlike
      the run as written, it always finishes. */
  function SnapshotRun(w: TimeWheel, m: nat): (r: Schedule.RunResult)
    requires Valid(w)
    ensures r.Ran? && Valid(r.wheel) && |r.logs| == m
    ensures r.wheel.interval == w.interval && r.wheel.slotNums == w.slotNums && r.wheel.job == w.job
    ensures r.wheel.currentPosition == (w.currentPosition + m) % w.slotNums
    decreases m
  {
    if m == 0 then
      Placement.ModNear(w.currentPosition, w.slotNums);
      Schedule.Ran(w, [])
    else
      var t := SnapshotTick(w);
      var rest := SnapshotRun(t.wheel, m - 1);
      Schedule.AdvanceMod(w.currentPosition, m, w.slotNums);
      Schedule.Ran(rest.wheel, [t.fired] + rest.logs)
  }

  /** On a wheel none of whose tasks repeats on a whole number of
      rotations, the run as written is the corrected run, tick by tick:
      same wheel after every tick, same firings in the same order, for any
      fuel. The results about runs therefore hold for the corrected walk on
      such wheels. */
  lemma {:induction false} RunIsSnapshot(w: TimeWheel, m: nat, fuel: nat)
    requires Valid(w) && NoneRepeatsPerRotation(w)
    ensures Schedule.Run(w, m, fuel) == SnapshotRun(w, m)
    decreases m
  {
    if m > 0 {
      SlotNoneRepeats(w);
      TickIsSnapshotWhenNoneRepeatsPerRotation(w, fuel);
      SnapshotTickKeeps(w);
      RunIsSnapshot(SnapshotTick(w).wheel, m - 1, fuel);
    }
  }

  /** A wheel none of whose tasks repeats on a whole number of rotations
      finishes every tick, for any number of ticks and any fuel: the run
      the periodicity results speak of exists. */
  lemma {:induction false} RunFinishes(w: TimeWheel, m: nat, fuel: nat)
    requires Valid(w) && NoneRepeatsPerRotation(w)
    ensures Schedule.Run(w, m, fuel).Ran?
  {
    RunIsSnapshot(w, m, fuel);
  }
}
